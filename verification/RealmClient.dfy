/** How a client of either dialect reads the realm-list packet, with every value of the format written out. */
module RealmClient {
  import opened Wrappers
  import opened Bytes

  datatype BuildTail = BuildTail(major: byte, minor: byte, revision: byte, build: nat)

  /** One realm as a client of either dialect learns it. */
  datatype Entry = Entry(
    kind: byte, flags: bv8, name: bytes, address: bytes, population: bytes,
    characters: byte, category: byte, id: byte, build: Option<BuildTail>)

  datatype Parsed<T> = Parsed(value: T, rest: bytes)

  /** The bytes up to the first zero. */
  function TakeString(bs: bytes): Option<Parsed<bytes>> {
    if bs == [] then None
    else if bs[0] == 0 then Some(Parsed([], bs[1..]))
    else match TakeString(bs[1..])
      case None => None
      case Some(p) => Some(Parsed([bs[0]] + p.value, p.rest))
  }

  /** Version and build, in the newer dialect and if the flags say that they follow. */
  function TakeTail(post: bool, flags: bv8, bs: bytes): Option<Parsed<Option<BuildTail>>> {
    if !post || flags & 0x04 == 0 then Some(Parsed(None, bs))
    else if |bs| < 5 then None
    else Some(Parsed(Some(BuildTail(bs[0], bs[1], bs[2], bs[3] as int + 256 * (bs[4] as int))), bs[5..]))
  }

  /** The kind: a byte and a 1 in the newer dialect, four bytes in the older. */
  function TakeHead(post: bool, bs: bytes): Option<Parsed<byte>> {
    if post then (if |bs| < 2 || bs[1] != 1 then None else Some(Parsed(bs[0], bs[2..])))
    else if |bs| < 4 || bs[1] != 0 || bs[2] != 0 || bs[3] != 0 then None
    else Some(Parsed(bs[0], bs[4..]))
  }

  function DecodeEntry(post: bool, bs: bytes): Option<Parsed<Entry>> {
    match TakeHead(post, bs)
    case None => None
    case Some(head) =>
      if head.rest == [] then None else
      var flags := head.rest[0] as bv8;
      match TakeString(head.rest[1..])
      case None => None
      case Some(name) =>
        match TakeString(name.rest)
        case None => None
        case Some(address) =>
          if |address.rest| < 7 then None else
          var a := address.rest;
          match TakeTail(post, flags, a[7..])
          case None => None
          case Some(tail) =>
            Some(Parsed(Entry(head.value, flags, name.value, address.value, a[..4], a[4], a[5], a[6], tail.value), tail.rest))
  }

  function DecodeEntries(post: bool, count: nat, bs: bytes): Option<Parsed<seq<Entry>>> {
    if count == 0 then Some(Parsed([], bs))
    else match DecodeEntry(post, bs)
      case None => None
      case Some(e) =>
        match DecodeEntries(post, count - 1, e.rest)
        case None => None
        case Some(es) => Some(Parsed([e.value] + es.value, es.rest))
  }

  /** Command 16, a 16-bit length of what follows it, four zeros, the count in 16 or 8 bits, the entries, and two
      bytes at the end. */
  function Decode(post: bool, packet: bytes): Option<seq<Entry>> {
    if |packet| < (if post then 9 else 8) || packet[0] != 16 then None
    else if packet[1] as int + 256 * (packet[2] as int) != |packet| - 3 || packet[3..7] != [0, 0, 0, 0] then None
    else
      var count := if post then packet[7] as int + 256 * (packet[8] as int) else packet[7];
      match DecodeEntries(post, count, packet[if post then 9 else 8..])
      case None => None
      case Some(p) => if p.rest == (if post then [16, 0] else [0, 2]) then Some(p.value) else None
  }
}
