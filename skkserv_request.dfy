/** The requests a SKKServ client sends and their exact wire bytes. */
module Requests {
  import opened Wrappers

  type byte = bv8

  /** The line feed that ends every request and every response. */
  const LF: byte := 0x0A
  /** The space that precedes the final line feed of every request. */
  const Space: byte := 0x20

  /** The four SKKServ requests; `Request` carries the encoded headword. */
  datatype SKKServRequest = End | Request(key: seq<byte>) | Version | Host

  /** The ASCII digits '0' to '3', the only tag bytes of the protocol. */
  predicate IsTag(b: byte)
  {
    0x30 <= b <= 0x33
  }

  /** The wire form of a request: tag byte, the key for a lookup, then space and LF.
      Total: no key is rejected, whatever bytes it holds. */
  function Data(r: SKKServRequest): (d: seq<byte>)
    ensures |d| == 3 + (if r.Request? then |r.key| else 0)
    ensures IsTag(d[0]) && d[|d| - 2..] == [Space, LF]
    ensures r.Request? ==> d[1..|d| - 2] == r.key
  {
    match r
    case End => [0x30, Space, LF]
    case Request(key) => [0x31] + key + [Space, LF]
    case Version => [0x32, Space, LF]
    case Host => [0x33, Space, LF]
  }

  /** Reading a wire form back into a request, by the protocol's request table. */
  function Parse(d: seq<byte>): (r: Option<SKKServRequest>)
    ensures r.Some? ==> Data(r.value) == d
  {
    if |d| < 3 || d[|d| - 2..] != [Space, LF] then None
    else if d[0] == 0x31 then Some(Request(d[1..|d| - 2]))
    else if |d| != 3 then None
    else if d[0] == 0x30 then Some(End)
    else if d[0] == 0x32 then Some(Version)
    else if d[0] == 0x33 then Some(Host)
    else None
  }

  /** The wire form determines the request: Parse undoes Data. */
  lemma ParseData(r: SKKServRequest)
    ensures Parse(Data(r)) == Some(r)
  {
    var d := Data(r);
    if r.Request? {
      assert d[0] == 0x31;
    }
  }

  /** Two requests with the same wire form are the same request. */
  lemma DataInjective(r1: SKKServRequest, r2: SKKServRequest)
    ensures Data(r1) == Data(r2) ==> r1 == r2
  {
    ParseData(r1);
    ParseData(r2);
  }

  /** The request table of the protocol, byte for byte. */
  lemma WireTable(key: seq<byte>)
    ensures Data(End) == [0x30, 0x20, 0x0A]
    ensures Data(Request(key)) == [0x31] + key + [0x20, 0x0A]
    ensures Data(Version) == [0x32, 0x20, 0x0A]
    ensures Data(Host) == [0x33, 0x20, 0x0A]
  {
  }

  /** The tag byte names the kind of request. */
  lemma TagOfData(r: SKKServRequest)
    ensures Data(r)[0] == 0x30 <==> r.End?
    ensures Data(r)[0] == 0x31 <==> r.Request?
    ensures Data(r)[0] == 0x32 <==> r.Version?
    ensures Data(r)[0] == 0x33 <==> r.Host?
  {
  }
}
