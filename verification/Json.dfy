/** JSON values, and the printer and parser the persistence code takes from its JSON library. */
module JsonCodec {
  import opened Wrappers
  import opened Bytes

  datatype Json =
    | Null
    | Bool(b: bool)
    | Number(n: int)
    | Str(s: string)
    | Arr(items: seq<Json>)
    | Obj(fields: map<string, Json>)

  /** A printer and a parser; what is asked of them is said where they are used. */
  datatype Codec = Codec(print_: Json -> Bytes, parse: Bytes -> Option<Json>)

  ghost predicate RoundTrips(c: Codec) {
    forall j :: c.parse(c.print_(j)) == Some(j)
  }

  /** The compact printer writes one line of text. */
  ghost predicate PrintsLines(c: Codec) {
    forall j :: c.print_(j) != [] && LF !in c.print_(j) && c.print_(j)[|c.print_(j)| - 1] != CR && IsUtf8(c.print_(j))
  }
}
