/** DHCP options (dhcp/options.c:24-295, RFC 2132 section 2): what the parser does with any
    buffer and what the writer writes. */
module DhcpOptions {
  import opened Words

  const PAD: Byte := 0
  const SUBNET_MASK: Byte := 1
  const ROUTER: Byte := 3
  const DNS: Byte := 6
  const HOST_NAME: Byte := 12
  const DOMAIN: Byte := 15
  const REQUESTED_IP: Byte := 50
  const LEASE_TIME: Byte := 51
  const OVERLOAD: Byte := 52
  const MESSAGE_TYPE: Byte := 53
  const SERVER_ID: Byte := 54
  const PARAMETER_LIST: Byte := 55
  const MAX_SIZE: Byte := 57
  const CLIENT_ID: Byte := 61
  const END: Byte := 255

  const FIELD_MAX := 64

  type Short = x: int | 0 <= x < 0x1_0000

  /** `struct options`; the sequences are its arrays of 64. */
  datatype Opts = Opts(
    messageType: Byte, maxSize: Short, hostname: seq<Byte>, requestedIp: Word, leaseTime: Word,
    serverId: Word, subnet: Word, routerNum: Byte, router: seq<Word>, dnsNum: Byte, dns: seq<Word>,
    domain: seq<Byte>, clientIdType: Byte, clientIdLength: Byte, clientId: seq<Byte>,
    paramSize: Byte, paramList: seq<Byte>)

  predicate Sized(o: Opts) {
    match o
    case Opts(_, _, hostname, _, _, _, _, _, router, _, dns, domain, _, _, clientId, _, paramList) =>
      && |hostname| == |domain| == |clientId| == |paramList| == FIELD_MAX
      && |router| == |dns| == FIELD_MAX
  }

  function Repeat<T>(x: T, n: nat): (s: seq<T>)
    ensures |s| == n && forall i :: 0 <= i < n ==> s[i] == x
  {
    if n == 0 then [] else Repeat(x, n - 1) + [x]
  }

  function Zeroed(): (o: Opts)
    ensures Sized(o)
  {
    var bytes, words := Repeat(0, FIELD_MAX), Repeat(0, FIELD_MAX);
    Opts(0, 0, bytes, 0, 0, 0, 0, 0, words, 0, words, bytes, 0, 0, bytes, 0, bytes)
  }

  // ---- C texts ----

  /** `strlen`, as far as the array reaches. */
  function StrLen(s: seq<Byte>): (n: nat)
    ensures n <= |s| && (forall i :: 0 <= i < n ==> s[i] != 0) && (n < |s| ==> s[n] == 0)
  {
    if s == [] || s[0] == 0 then 0 else 1 + StrLen(s[1..])
  }

  function Text(s: seq<Byte>): seq<Byte> {
    s[..StrLen(s)]
  }

  /** `memcpy(dst, src, |src|)`. */
  function Overlaid<T>(dst: seq<T>, src: seq<T>): (r: seq<T>)
    requires |src| <= |dst|
    ensures |r| == |dst|
  {
    src + dst[|src|..]
  }

  /** `strncpy(dst, src, n)`: up to a NUL, then NULs. */
  function StrnCopied(dst: seq<Byte>, src: seq<Byte>, n: nat): (r: seq<Byte>)
    requires n <= |dst|
    ensures |r| == |dst|
  {
    var t := Text(if |src| <= n then src else src[..n]);
    Overlaid(dst, t + Repeat(0, n - |t|))
  }

  // ---- the parser ----

  predicate LengthOk(code: Byte, len: Byte) {
    if code == SUBNET_MASK || code == REQUESTED_IP || code == LEASE_TIME || code == SERVER_ID then len == 4
    else if code == ROUTER || code == DNS then (len >= 4 ==> len % 4 == 0) && len <= FIELD_MAX
    else if code == DOMAIN || code == HOST_NAME || code == PARAMETER_LIST then 1 <= len <= FIELD_MAX
    else if code == MESSAGE_TYPE || code == OVERLOAD then len == 1
    else if code == MAX_SIZE then len == 2
    else if code == CLIENT_ID then 2 <= len <= FIELD_MAX
    else true
  }

  /** Everything the option's case reads is in what is left of the buffer. */
  predicate InBuffer(code: Byte, len: Byte, rest: seq<Byte>) {
    if code == ROUTER || code == DNS then len / 4 * 4 <= |rest|
    else if code == DOMAIN || code == HOST_NAME then len <= |rest| || StrLen(rest) < |rest|
    else if code == CLIENT_ID then len + 1 <= |rest|
    else if code in {SUBNET_MASK, REQUESTED_IP, LEASE_TIME, SERVER_ID, PARAMETER_LIST, MESSAGE_TYPE, MAX_SIZE} then len <= |rest|
    else true
  }

  function ShortOf(high: int, low: int): Short
    requires 0 <= high < 256 && 0 <= low < 256
  {
    high * 256 + low
  }

  /** A word in network order. */
  function WordAt(s: seq<Byte>, i: nat): Word
    requires i + 4 <= |s|
  {
    BigEndian(s[i], s[i + 1], s[i + 2], s[i + 3])
  }

  function WordsAt(s: seq<Byte>, n: nat): (r: seq<Word>)
    requires 4 * n <= |s|
    ensures |r| == n
  {
    if n == 0 then [] else WordsAt(s, n - 1) + [WordAt(s, 4 * (n - 1))]
  }

  /** What the option's case stores. */
  function Stored(o: Opts, code: Byte, len: Byte, rest: seq<Byte>): (r: Opts)
    requires Sized(o) && LengthOk(code, len) && InBuffer(code, len, rest)
    ensures Sized(r)
  {
    if code == SUBNET_MASK then o.(subnet := WordAt(rest, 0))
    else if code == ROUTER then o.(routerNum := len / 4, router := Overlaid(o.router, WordsAt(rest, len / 4)))
    else if code == DNS then o.(dnsNum := len / 4, dns := Overlaid(o.dns, WordsAt(rest, len / 4)))
    else if code == DOMAIN then o.(domain := StrnCopied(o.domain, rest, len))
    else if code == MESSAGE_TYPE then o.(messageType := rest[0])
    else if code == MAX_SIZE then o.(maxSize := ShortOf(rest[0], rest[1]))
    else if code == HOST_NAME then o.(hostname := StrnCopied(o.hostname, rest, len))
    else if code == REQUESTED_IP then o.(requestedIp := WordAt(rest, 0))
    else if code == LEASE_TIME then o.(leaseTime := WordAt(rest, 0))
    else if code == SERVER_ID then o.(serverId := WordAt(rest, 0))
    else if code == CLIENT_ID then
      o.(clientIdType := rest[0], clientIdLength := len - 1, clientId := Overlaid(o.clientId, rest[1..len + 1]))
    else if code == PARAMETER_LIST then o.(paramSize := len, paramList := Overlaid(o.paramList, rest[..len]))
    else o
  }

  /** Success, failure, or a read past the end of the buffer; the struct is filled either way. */
  datatype Outcome = Parsed(o: Opts) | Failed(o: Opts) | Overread(o: Opts)

  function ParseFrom(buf: seq<Byte>, pos: nat, o: Opts): Outcome
    requires Sized(o)
    decreases |buf| - pos, 1
  {
    ParseOption(buf, pos, o)
  }

  /** One turn of the loop and the rest. */
  function ParseOption(buf: seq<Byte>, pos: nat, o: Opts): Outcome
    requires Sized(o)
    decreases |buf| - pos, 0
  {
    if pos >= |buf| then Failed(o)
    else if buf[pos] == END then Parsed(o)
    else if buf[pos] == PAD || pos + 2 >= |buf| then Failed(o)
    else
      var code, len, rest := buf[pos], buf[pos + 1], buf[pos + 2..];
      if !LengthOk(code, len) then Failed(o)
      else if !InBuffer(code, len, rest) then Overread(o)
      else ParseFrom(buf, pos + 2 + len, Stored(o, code, len, rest))
  }

  // ---- the writer ----

  function OctetsOf(ws: seq<Word>): (r: seq<Byte>)
    ensures |r| == 4 * |ws|
  {
    if ws == [] then [] else OctetsOf(ws[..|ws| - 1]) + Octets(ws[|ws| - 1])
  }

  function Option(code: Byte, payload: seq<Byte>): seq<Byte> {
    [code, |payload| % 256] + payload
  }

  /** The arrays can be read as far as their counts say, and the texts end in time. */
  predicate Readable(o: Opts) {
    && Sized(o) && StrLen(o.hostname) < FIELD_MAX && StrLen(o.domain) < FIELD_MAX
    && o.routerNum <= FIELD_MAX && o.dnsNum <= FIELD_MAX
    && o.clientIdLength <= FIELD_MAX && o.paramSize <= FIELD_MAX
  }

  const PIECES := 12

  /** The options in the order in which the writer looks at them. */
  function Code(k: nat): Byte
    requires k < PIECES
  {
    [MESSAGE_TYPE, MAX_SIZE, HOST_NAME, REQUESTED_IP, LEASE_TIME, SERVER_ID, SUBNET_MASK, ROUTER, DNS, DOMAIN,
     CLIENT_ID, PARAMETER_LIST][k]
  }

  function NonZero(w: Word): seq<Byte> {
    if w > 0 then Octets(w) else []
  }

  /** What the `k`th option carries, nothing if the writer leaves it out. */
  function Payload(o: Opts, k: nat): seq<Byte>
    requires Readable(o) && k < PIECES
  {
    if k == 0 then if o.messageType > 0 then [o.messageType] else []
    else if k == 1 then if o.maxSize > 0 then [o.maxSize / 256, o.maxSize % 256] else []
    else if k == 2 then Text(o.hostname)
    else if k == 3 then NonZero(o.requestedIp)
    else if k == 4 then NonZero(o.leaseTime)
    else if k == 5 then NonZero(o.serverId)
    else if k == 6 then NonZero(o.subnet)
    else if k == 7 then OctetsOf(o.router[..o.routerNum])
    else if k == 8 then OctetsOf(o.dns[..o.dnsNum])
    else if k == 9 then Text(o.domain)
    else if k == 10 then if o.clientIdLength > 0 then [o.clientIdType] + o.clientId[..o.clientIdLength] else []
    else o.paramList[..o.paramSize]
  }

  function Piece(o: Opts, k: nat): seq<Byte>
    requires Readable(o) && k < PIECES
  {
    if Payload(o, k) == [] then [] else Option(Code(k), Payload(o, k))
  }

  function AllPieces(o: Opts): (ps: seq<seq<Byte>>)
    requires Readable(o)
    ensures |ps| == PIECES && forall k :: 0 <= k < PIECES ==> ps[k] == Piece(o, k)
  {
    seq(PIECES, k requires 0 <= k < PIECES => Piece(o, k))
  }

  function Joined<T>(ps: seq<seq<T>>, k: nat): seq<T>
    requires k <= |ps|
    decreases |ps|, k, 1
  {
    JoinedLast(ps, k)
  }

  function JoinedLast<T>(ps: seq<seq<T>>, k: nat): seq<T>
    requires k <= |ps|
    decreases |ps|, k, 0
  {
    if k == 0 then [] else Joined(ps, k - 1) + ps[k - 1]
  }

  /** Everything the writer writes. */
  function Written(o: Opts): seq<Byte>
    requires Readable(o)
  {
    Joined(AllPieces(o), PIECES) + [END]
  }
}
