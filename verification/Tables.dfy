/** Dispatch tables: rows searched front to back by opcode, for commands and for
    streams alike. */
module Tables {
  import opened Bytes

  datatype Row<H> = Row(opcode: byte, handler: H)

  /** The first row registered under `opcode`. */
  function Find<H>(table: seq<Row<H>>, opcode: byte): (r: Option<Row<H>>)
    ensures r.Some? ==> r.value in table && r.value.opcode == opcode
    ensures r.None? ==> forall e :: e in table ==> e.opcode != opcode
    decreases |table|
  {
    if table == [] then None
    else if table[0].opcode == opcode then Some(table[0]) else Find(table[1..], opcode)
  }

  /** Found is the row with no row of that opcode before it. */
  lemma {:induction false} FindsFirst<H>(table: seq<Row<H>>, opcode: byte, i: nat)
    requires i < |table| && table[i].opcode == opcode && forall j :: 0 <= j < i ==> table[j].opcode != opcode
    ensures Find(table, opcode) == Some(table[i])
    decreases i
  {
    if i > 0 {
      assert table[0].opcode != opcode;
      FindsFirst(table[1..], opcode, i - 1);
    }
  }

  /** One turn of a search loop. */
  lemma FindFrom<H>(table: seq<Row<H>>, opcode: byte, i: nat)
    requires i < |table|
    ensures Find(table[i..], opcode) ==
            if table[i].opcode == opcode then Some(table[i]) else Find(table[i + 1..], opcode)
  {
    assert table[i..][1..] == table[i + 1..];
  }
}
