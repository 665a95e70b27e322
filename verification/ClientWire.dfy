/** What a client of the authentication server puts on the wire and how it reads the replies, with every offset
    and value written out. */
module ClientWire {
  import opened Wrappers
  import opened Bytes
  import opened InterleavedHash
  import opened SrpStandard

  /** A client introduces itself: protocol version, game name and version, build, then platform, system, locale,
      time zone and address, and the account name. */
  datatype Visit = Visit(protocol: byte, game: bytes, build: nat, system: bytes, name: bytes)

  predicate WellFormed(v: Visit) {
    |v.game| == 7 && v.build < 65536 && |v.system| == 20 && |v.name| < 256
  }

  /** The packed challenge.  Its length field counts the bytes behind it. */
  function Challenge(v: Visit): (c: bytes)
    requires WellFormed(v)
    ensures |c| == 34 + |v.name|
  {
    [0, v.protocol, (30 + |v.name|) % 256, (30 + |v.name|) / 256]
    + v.game + [v.build % 256, v.build / 256] + v.system + [|v.name|] + v.name
  }

  /** The reply to a challenge: a result, the server's key, the generator, the modulus and the salt. */
  function DecodeHello(reply: bytes): Option<Hello> {
    if |reply| != 119 || reply[0] != 0 || reply[1] != 0 || reply[2] != 0 || reply[35] != 1 || reply[37] != 32 then None
    else Some(Hello(reply[3..35], reply[36..37], reply[38..70], reply[70..102]))
  }

  /** The sixteen bytes that follow the salt. */
  const VERSION_SALT: bytes := [186, 163, 30, 153, 160, 11, 33, 87, 252, 55, 63, 179, 105, 205, 210, 241]

  /** Command, public key, evidence, a hash of the client's files, the number of keys and the security flags. */
  function ProofFrame(c: ClientSide, crc: Digest, keys: byte, flags: byte): (p: bytes)
    ensures |p| == 75
  {
    seq(75, i requires 0 <= i < 75 => ProofByte(c, crc, keys, flags, i))
  }

  function ProofByte(c: ClientSide, crc: Digest, keys: byte, flags: byte, i: nat): byte
    requires i < 75
  {
    if i == 0 then 1
    else if i < 33 then c.A[i - 1]
    else if i < 53 then c.M[i - 33]
    else if i < 73 then crc[i - 53]
    else if i == 73 then keys
    else flags
  }

  /** What a reply to a proof says; only the newer dialect has account flags and a last field. */
  datatype ServerAnswer = ServerAnswer(proof: bytes, accountFlags: Option<nat>, surveyId: nat, last: Option<nat>)

  function DecodeProofReply(post: bool, reply: bytes): Option<ServerAnswer> {
    if |reply| != (if post then 32 else 26) || reply[0] != 1 || reply[1] != 0 then None
    else if post
    then Some(ServerAnswer(reply[2..22], Some(Number(reply[22..26])), Number(reply[26..30]), Some(Number(reply[30..32]))))
    else Some(ServerAnswer(reply[2..22], None, Number(reply[22..26]), None))
  }

  /** The answer a client of either dialect waits for. */
  function Expected(h: Hash, post: bool, A: EphemeralKey, M: Digest, K: SessionKey): ServerAnswer {
    ServerAnswer(h(AnswerText(A, M, K)), if post then Some(0x00800000) else None, 0, if post then Some(0) else None)
  }
}
