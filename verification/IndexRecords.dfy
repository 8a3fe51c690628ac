/** What an index holds: each definition's symbol, its range in the text, and its kind. */
module IndexRecords {
  import opened Base

  datatype Kind = Function | DirectAlias(target: seq<byte>) | ExpressionAlias | Ifunc

  datatype Definition = Definition(symbol: seq<byte>, start: nat, length: nat, kind: Kind) {
    function End(): nat {
      start + length
    }
  }
}
