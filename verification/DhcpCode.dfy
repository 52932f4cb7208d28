/** The parser and the writer of dhcp/options.c:24-295 as they fill a struct and a buffer. */
module DhcpCode {
  import opened Words
  import opened DhcpOptions
  import opened DhcpRoundTrip

  /** 0, -1, or a read past the buffer. */
  datatype Status = Success | Failure | OutOfBounds

  class OptionsStruct {
    var messageType: Byte
    var maxSize: Short
    var hostname: seq<Byte>
    var requestedIp: Word
    var leaseTime: Word
    var serverId: Word
    var subnet: Word
    var routerNum: Byte
    var router: seq<Word>
    var dnsNum: Byte
    var dns: seq<Word>
    var domain: seq<Byte>
    var clientIdType: Byte
    var clientIdLength: Byte
    var clientId: seq<Byte>
    var paramSize: Byte
    var paramList: seq<Byte>

    function View(): Opts
      reads this
    {
      Opts(messageType, maxSize, hostname, requestedIp, leaseTime, serverId, subnet, routerNum, router, dnsNum, dns,
        domain, clientIdType, clientIdLength, clientId, paramSize, paramList)
    }

    /** `memset(opts, 0, sizeof(*opts))`. */
    constructor ()
      ensures View() == Zeroed()
    {
      var bytes, words := Repeat(0, FIELD_MAX), Repeat(0, FIELD_MAX);
      messageType, maxSize, hostname := 0, 0, bytes;
      requestedIp, leaseTime, serverId, subnet := 0, 0, 0, 0;
      routerNum, router, dnsNum, dns := 0, words, 0, words;
      domain := bytes;
      clientIdType, clientIdLength, clientId := 0, 0, bytes;
      paramSize, paramList := 0, bytes;
    }

    method ParseOptions(buf: seq<Byte>) returns (status: Status)
      requires Sized(View())
      modifies this
      ensures
        var r := ParseFrom(buf, 0, old(View()));
        View() == r.o && (status == match r case Parsed(_) => Success case Failed(_) => Failure case Overread(_) => OutOfBounds)
    {
      var pos := 0;
      while pos < |buf|
        invariant Sized(View())
        invariant ParseFrom(buf, 0, old(View())) == ParseFrom(buf, pos, View())
        decreases |buf| - pos
      {
        var code := buf[pos];
        if code == END {
          return Success;
        } else if code == PAD || pos + 2 >= |buf| {
          return Failure;
        }
        var len, rest := buf[pos + 1], buf[pos + 2..];
        if !LengthOk(code, len) { return Failure; }
        if !InBuffer(code, len, rest) { return OutOfBounds; }
        StoreOption(code, len, rest);
        pos := pos + 2 + len;
      }
      status := Failure;
    }

    /** The cases of the parser's switch. */
    method StoreOption(code: Byte, len: Byte, rest: seq<Byte>)
      requires Sized(View()) && LengthOk(code, len) && InBuffer(code, len, rest)
      modifies this
      ensures View() == Stored(old(View()), code, len, rest)
    {
      if code in {SUBNET_MASK, REQUESTED_IP, LEASE_TIME, SERVER_ID, MESSAGE_TYPE, MAX_SIZE} {
        StoreNumber(code, len, rest);
      } else if code in {ROUTER, DNS} {
        StoreWords(code, len, rest);
      } else if code in {DOMAIN, HOST_NAME, CLIENT_ID, PARAMETER_LIST} {
        StoreBytes(code, len, rest);
      }
    }

    method StoreNumber(code: Byte, len: Byte, rest: seq<Byte>)
      requires code in {SUBNET_MASK, REQUESTED_IP, LEASE_TIME, SERVER_ID, MESSAGE_TYPE, MAX_SIZE}
      requires Sized(View()) && LengthOk(code, len) && InBuffer(code, len, rest)
      modifies this
      ensures View() == Stored(old(View()), code, len, rest)
    {
      if code == SUBNET_MASK {
        subnet := WordAt(rest, 0);
      } else if code == REQUESTED_IP {
        requestedIp := WordAt(rest, 0);
      } else if code == LEASE_TIME {
        leaseTime := WordAt(rest, 0);
      } else if code == SERVER_ID {
        serverId := WordAt(rest, 0);
      } else if code == MESSAGE_TYPE {
        messageType := rest[0];
      } else {
        maxSize := ShortOf(rest[0], rest[1]);
      }
    }

    method StoreWords(code: Byte, len: Byte, rest: seq<Byte>)
      requires code in {ROUTER, DNS}
      requires Sized(View()) && LengthOk(code, len) && InBuffer(code, len, rest)
      modifies this
      ensures View() == Stored(old(View()), code, len, rest)
    {
      if code == ROUTER {
        routerNum := len / 4;
        router := CopyWords(router, rest, routerNum);
      } else {
        dnsNum := len / 4;
        dns := CopyWords(dns, rest, dnsNum);
      }
    }

    method StoreBytes(code: Byte, len: Byte, rest: seq<Byte>)
      requires code in {DOMAIN, HOST_NAME, CLIENT_ID, PARAMETER_LIST}
      requires Sized(View()) && LengthOk(code, len) && InBuffer(code, len, rest)
      modifies this
      ensures View() == Stored(old(View()), code, len, rest)
    {
      if code == DOMAIN {
        domain := StrnCopied(domain, rest, len);
      } else if code == HOST_NAME {
        hostname := StrnCopied(hostname, rest, len);
      } else if code == CLIENT_ID {
        clientIdType, clientIdLength := rest[0], len - 1;
        clientId := Overlaid(clientId, rest[1..len + 1]);
      } else {
        paramList, paramSize := Overlaid(paramList, rest[..len]), len;
      }
    }
  }

  /** The loops that copy addresses. */
  method CopyWords(field: seq<Word>, rest: seq<Byte>, n: nat) returns (r: seq<Word>)
    requires 4 * n <= |rest| && n <= |field|
    ensures r == Overlaid(field, WordsAt(rest, n))
  {
    r := field;
    for i := 0 to n
      invariant r == Overlaid(field, WordsAt(rest, i))
    {
      r := r[i := WordAt(rest, 4 * i)];
    }
  }

  // ---- the writer ----

  /** `memcpy` into the buffer. */
  method Copy(buf: array<Byte>, pos: nat, s: seq<Byte>)
    requires pos + |s| <= buf.Length
    modifies buf
    ensures buf[..pos + |s|] == old(buf[..pos]) + s
  {
    for i := 0 to |s|
      invariant buf[..pos] == old(buf[..pos]) && buf[pos..pos + i] == s[..i]
    {
      buf[pos + i] := s[i];
      assert buf[pos..pos + i + 1] == buf[pos..pos + i] + [s[i]];
    }
    assert s[..|s|] == s;
  }

  method PutOption(buf: array<Byte>, pos: nat, code: Byte, payload: seq<Byte>) returns (next: nat)
    requires pos + 2 + |payload| <= buf.Length
    modifies buf
    ensures next == pos + 2 + |payload| && buf[..next] == old(buf[..pos]) + Option(code, payload)
  {
    ghost var before := buf[..pos];
    Copy(buf, pos, [code, |payload| % 256]);
    Copy(buf, pos + 2, payload);
    next := pos + 2 + |payload|;
    assert before + [code, |payload| % 256] + payload == before + ([code, |payload| % 256] + payload);
  }

  /** One of the writer's blocks: its condition and assertion, then code, length and payload. */
  method Put(o: Opts, ghost ps: seq<seq<Byte>>, k: nat, buf: array<Byte>, size: nat, pos: nat)
    returns (ok: bool, next: nat)
    requires Readable(o) && ps == AllPieces(o) && k < PIECES && size <= buf.Length
    requires pos <= buf.Length && buf[..pos] == Joined(ps, k)
    modifies buf
    ensures ok ==> next <= buf.Length && buf[..next] == Joined(ps, k + 1)
    ensures !ok ==> size <= |Joined(ps, k + 1)|
  {
    var payload := Payload(o, k);
    assert ps[k] == if payload == [] then [] else Option(Code(k), payload);
    if payload == [] {
      assert Joined(ps, k) + [] == Joined(ps, k);
      return true, pos;
    }
    if pos + |payload| + 2 >= size { return false, pos; }
    next := PutOption(buf, pos, Code(k), payload);
    ok := true;
  }

  lemma JoinedGrows<T>(ps: seq<seq<T>>, k: nat, n: nat)
    requires k <= n <= |ps|
    ensures |Joined(ps, k)| <= |Joined(ps, n)|
    decreases n - k
  {
    if k < n { JoinedGrows(ps, k + 1, n); }
  }

  /** Three blocks, one after the other. */
  method PutThree(o: Opts, ghost ps: seq<seq<Byte>>, k: nat, buf: array<Byte>, size: nat, start: nat)
    returns (ok: bool, pos: nat)
    requires Readable(o) && ps == AllPieces(o) && k + 3 <= PIECES && size <= buf.Length
    requires start <= buf.Length && buf[..start] == Joined(ps, k)
    modifies buf
    ensures ok ==> pos <= buf.Length && buf[..pos] == Joined(ps, k + 3)
    ensures !ok ==> size <= |Joined(ps, k + 3)|
  {
    JoinedGrows(ps, k + 1, k + 3);
    JoinedGrows(ps, k + 2, k + 3);
    ok, pos := Put(o, ps, k, buf, size, start);
    if !ok { return; }
    ok, pos := Put(o, ps, k + 1, buf, size, pos);
    if !ok { return; }
    ok, pos := Put(o, ps, k + 2, buf, size, pos);
  }

  /** All the blocks. */
  method PutAll(o: Opts, ghost ps: seq<seq<Byte>>, buf: array<Byte>, size: nat) returns (ok: bool, pos: nat)
    requires Readable(o) && ps == AllPieces(o) && size <= buf.Length
    modifies buf
    ensures ok ==> pos <= buf.Length && buf[..pos] == Joined(ps, PIECES)
    ensures !ok ==> size <= |Joined(ps, PIECES)|
  {
    ok, pos := PutFirst(o, ps, buf, size);
    if !ok {
      JoinedGrows(ps, 6, PIECES);
      return;
    }
    ok, pos := PutSix(o, ps, 6, buf, size, pos);
  }

  method PutFirst(o: Opts, ghost ps: seq<seq<Byte>>, buf: array<Byte>, size: nat) returns (ok: bool, pos: nat)
    requires Readable(o) && ps == AllPieces(o) && size <= buf.Length
    modifies buf
    ensures ok ==> pos <= buf.Length && buf[..pos] == Joined(ps, 6)
    ensures !ok ==> size <= |Joined(ps, 6)|
  {
    assert buf[..0] == Joined(ps, 0);
    ok, pos := PutSix(o, ps, 0, buf, size, 0);
  }

  method PutSix(o: Opts, ghost ps: seq<seq<Byte>>, k: nat, buf: array<Byte>, size: nat, start: nat)
    returns (ok: bool, pos: nat)
    requires Readable(o) && ps == AllPieces(o) && k + 6 <= PIECES && size <= buf.Length
    requires start <= buf.Length && buf[..start] == Joined(ps, k)
    modifies buf
    ensures ok ==> pos <= buf.Length && buf[..pos] == Joined(ps, k + 6)
    ensures !ok ==> size <= |Joined(ps, k + 6)|
  {
    JoinedGrows(ps, k + 3, k + 6);
    ok, pos := PutThree(o, ps, k, buf, size, start);
    if !ok { return; }
    ok, pos := PutThree(o, ps, k + 3, buf, size, pos);
  }

  /** `write_options`; false where an assertion fails. */
  method WriteOptions(o: Opts, buf: array<Byte>, size: Short) returns (ok: bool, written: nat)
    requires Readable(o) && size <= buf.Length
    modifies buf
    ensures ok <==> |Written(o)| < size
    ensures ok ==> written == |Written(o)| && buf[..written] == Written(o)
  {
    var pos;
    ok, pos := PutAll(o, AllPieces(o), buf, size);
    if !ok || pos + 1 >= size { return false, 0; }
    Copy(buf, pos, [END]);
    written := pos + 1;
  }

  /** A buffer of 512 octets always holds fitting options, and a parse of what was written
      into it recovers them. */
  method RoundTrip(o: Opts) returns (g: OptionsStruct)
    requires Readable(o) && Fit(o)
    ensures Counted(g.View()) && Same(o, g.View())
  {
    var buf := new Byte[512];
    SizeBound(o);
    var ok, written := WriteOptions(o, buf, 512);
    g := new OptionsStruct();
    FitComesBack(o);
    var status := g.ParseOptions(buf[..written]);
  }
}
