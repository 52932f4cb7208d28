/** What the parser makes of what the writer wrote. */
module DhcpRoundTrip {
  import opened Words
  import opened DhcpOptions

  /** What the fields mean: counted parts of the arrays, and the text arrays themselves. */
  datatype Meaning = Meaning(
    messageType: Byte, maxSize: Short, hostname: seq<Byte>, requestedIp: Word, leaseTime: Word,
    serverId: Word, subnet: Word, router: seq<Word>, dns: seq<Word>, domain: seq<Byte>,
    clientIdType: Byte, clientId: seq<Byte>, paramList: seq<Byte>)

  predicate Counted(o: Opts) {
    Sized(o) && o.routerNum <= FIELD_MAX && o.dnsNum <= FIELD_MAX && o.clientIdLength <= FIELD_MAX && o.paramSize <= FIELD_MAX
  }

  function Raw(o: Opts): Meaning
    requires Counted(o)
  {
    Meaning(o.messageType, o.maxSize, o.hostname, o.requestedIp, o.leaseTime, o.serverId, o.subnet,
      o.router[..o.routerNum], o.dns[..o.dnsNum], o.domain, o.clientIdType, o.clientId[..o.clientIdLength],
      o.paramList[..o.paramSize])
  }

  /** A text array without what follows the NUL. */
  function Cleared(s: seq<Byte>): (r: seq<Byte>)
    requires |s| == FIELD_MAX
    ensures |r| == FIELD_MAX
  {
    Text(s) + Repeat(0, FIELD_MAX)[StrLen(s)..]
  }

  function MeaningOf(o: Opts): Meaning
    requires Counted(o)
  {
    Raw(o).(hostname := Cleared(o.hostname), domain := Cleared(o.domain))
  }

  /** The fields that mean something agree. */
  predicate Same(o: Opts, g: Opts)
    requires Counted(o) && Counted(g)
  {
    MeaningOf(o) == MeaningOf(g)
  }

  /** What a caller can check beforehand: the counts fit an option, and a client id type comes
      with a client id. */
  predicate Fit(o: Opts) {
    && o.routerNum <= 16 && o.dnsNum <= 16 && o.clientIdLength <= 63
    && (o.clientIdLength == 0 ==> o.clientIdType == 0)
  }

  // ---- sizes ----

  /** The writer's bound: with texts of at most 63, 426 octets are enough. */
  lemma SizeBound(o: Opts)
    requires Readable(o) && Fit(o)
    ensures |Written(o)| <= 426
  {
    JoinedSize(o, AllPieces(o), PIECES);
    BoundAll();
  }

  function PieceBound(k: nat): nat {
    if k == 0 then 3 else if k == 1 then 4 else if k == 2 || k == 9 then 65
    else if k == 7 || k == 8 || k == 10 || k == 11 then 66 else 6
  }

  function BoundUpTo(k: nat): nat {
    if k == 0 then 0 else BoundUpTo(k - 1) + PieceBound(k - 1)
  }

  lemma PieceSize(o: Opts, k: nat)
    requires Readable(o) && Fit(o) && k < PIECES
    ensures |Piece(o, k)| <= PieceBound(k)
    ensures |Payload(o, k)| <= FIELD_MAX && Code(k) != PAD && Code(k) != END
    ensures Payload(o, k) != [] ==> LengthOk(Code(k), |Payload(o, k)|) && |Piece(o, k)| == 2 + |Payload(o, k)|
  {
  }

  lemma {:induction false} JoinedSize(o: Opts, ps: seq<seq<Byte>>, k: nat)
    requires Readable(o) && Fit(o) && ps == AllPieces(o) && k <= PIECES
    ensures |Joined(ps, k)| <= BoundUpTo(k)
  {
    if k > 0 {
      JoinedSize(o, ps, k - 1);
      PieceSize(o, k - 1);
    }
  }

  lemma BoundAll()
    ensures BoundUpTo(12) == 425
  {
    assert BoundUpTo(3) == 72;
    assert BoundUpTo(6) == 90;
    assert BoundUpTo(9) == 228;
  }

  // ---- words and texts come back ----

  lemma WordReads(x: Word)
    ensures WordAt(Octets(x), 0) == x
  {
    OctetsSpell(x);
  }

  lemma WordWithin(s: seq<Byte>, i: nat, w: seq<Byte>)
    requires |w| == 4 && i + 4 <= |s| && s[i..i + 4] == w
    ensures WordAt(s, i) == WordAt(w, 0)
  {
    assert w[0] == s[i] && w[1] == s[i + 1] && w[2] == s[i + 2] && w[3] == s[i + 3];
  }

  lemma {:induction false} WordsRead(ws: seq<Word>, s: seq<Byte>)
    requires |s| >= 4 * |ws| && s[..4 * |ws|] == OctetsOf(ws)
    ensures WordsAt(s, |ws|) == ws
  {
    if ws != [] {
      var n := |ws| - 1;
      LastWord(s, OctetsOf(ws[..n]), Octets(ws[n]), 4 * n);
      WordsRead(ws[..n], s);
      WordReads(ws[n]);
      WordWithin(s, 4 * n, Octets(ws[n]));
    }
  }

  lemma LastWord(s: seq<Byte>, a: seq<Byte>, b: seq<Byte>, i: nat)
    requires |a| == i && |b| == 4 && |s| >= i + 4 && s[..i + 4] == a + b
    ensures s[..i] == a && s[i..i + 4] == b
  {
    assert s[..i] == s[..i + 4][..i] && s[i..i + 4] == s[..i + 4][i..];
  }

  lemma TextAlone(t: seq<Byte>, tail: seq<Byte>)
    requires (forall i :: 0 <= i < |t| ==> t[i] != 0) && (tail == [] || tail[0] == 0)
    ensures Text(t + tail) == t
  {
    var s := t + tail;
    assert forall i :: 0 <= i < |t| ==> s[i] == t[i];
    assert tail != [] ==> s[|t|] == 0;
    assert StrLen(s) == |t|;
  }

  /** Copying a text into a cleared array stores that text. */
  lemma StrnCopyStores(s: seq<Byte>, rest: seq<Byte>)
    requires |s| == FIELD_MAX
    requires var t := Text(s); |t| <= |rest| && rest[..|t|] == t
    ensures StrnCopied(Repeat(0, FIELD_MAX), rest, |Text(s)|) == Cleared(s)
  {
    var t := Text(s);
    var zeros: seq<Byte> := Repeat(0, FIELD_MAX);
    var src := if |rest| <= |t| then rest else rest[..|t|];
    assert src == t;
    TextAlone(t, []);
    assert t + [] == t;
    var none: seq<Byte> := Repeat(0, 0);
    assert StrnCopied(zeros, rest, |t|) == (t + none) + zeros[|t|..] == t + zeros[|t|..];
  }

  // ---- one option at a time ----

  /** What comes after an option that the writer wrote is read next. */
  lemma ReadsOption(buf: seq<Byte>, pos: nat, code: Byte, payload: seq<Byte>, g: Opts) returns (rest: seq<Byte>)
    requires Sized(g) && |payload| <= FIELD_MAX && code != PAD && code != END
    requires pos + 2 + |payload| < |buf| && buf[pos..pos + 2 + |payload|] == Option(code, payload)
    requires LengthOk(code, |payload|)
    ensures rest == buf[pos + 2..] && |rest| > |payload| && rest[..|payload|] == payload
    ensures InBuffer(code, |payload|, rest)
    ensures ParseFrom(buf, pos, g) == ParseFrom(buf, pos + 2 + |payload|, Stored(g, code, |payload|, rest))
  {
    rest := buf[pos + 2..];
    OptionParts(buf, pos, code, payload);
  }

  lemma OptionParts(buf: seq<Byte>, pos: nat, code: Byte, payload: seq<Byte>)
    requires |payload| <= FIELD_MAX
    requires pos + 2 + |payload| < |buf| && buf[pos..pos + 2 + |payload|] == Option(code, payload)
    ensures buf[pos] == code && buf[pos + 1] == |payload| && buf[pos + 2..][..|payload|] == payload
  {
    var o := Option(code, payload);
    assert o[0] == buf[pos] && o[1] == buf[pos + 1];
    assert buf[pos + 2..][..|payload|] == o[2..];
  }

  /** The first `k` fields of `m`, the others clear. */
  function FirstFields(m: Meaning, k: nat): Meaning {
    var zeros: seq<Byte> := Repeat(0, FIELD_MAX);
    Meaning(
      if k > 0 then m.messageType else 0, if k > 1 then m.maxSize else 0, if k > 2 then m.hostname else zeros,
      if k > 3 then m.requestedIp else 0, if k > 4 then m.leaseTime else 0, if k > 5 then m.serverId else 0,
      if k > 6 then m.subnet else 0, if k > 7 then m.router else [], if k > 8 then m.dns else [],
      if k > 9 then m.domain else zeros, if k > 10 then m.clientIdType else 0, if k > 10 then m.clientId else [],
      if k > 11 then m.paramList else [])
  }

  /** Field `k` of `m` is clear. */
  predicate ClearField(m: Meaning, k: nat) {
    match k
    case 0 => m.messageType == 0
    case 1 => m.maxSize == 0
    case 2 => m.hostname == Repeat(0, FIELD_MAX)
    case 3 => m.requestedIp == 0
    case 4 => m.leaseTime == 0
    case 5 => m.serverId == 0
    case 6 => m.subnet == 0
    case 7 => m.router == []
    case 8 => m.dns == []
    case 9 => m.domain == Repeat(0, FIELD_MAX)
    case 10 => m.clientIdType == 0 && m.clientId == []
    case _ => m.paramList == []
  }

  lemma ClearFieldAddsNothing(m: Meaning, k: nat)
    requires k < PIECES && ClearField(m, k)
    ensures FirstFields(m, k) == FirstFields(m, k + 1)
  {
  }

  lemma AbsentIsClear(o: Opts, k: nat)
    requires Readable(o) && Fit(o) && k < PIECES && Payload(o, k) == []
    ensures ClearField(MeaningOf(o), k)
  {
    if k == 2 { NoText(o.hostname); }
    if k == 9 { NoText(o.domain); }
  }

  lemma NoText(s: seq<Byte>)
    requires |s| == FIELD_MAX && Text(s) == []
    ensures Cleared(s) == Repeat(0, FIELD_MAX)
  {
  }

  lemma Absent(o: Opts, k: nat)
    requires Readable(o) && Fit(o) && k < PIECES && Payload(o, k) == []
    ensures FirstFields(MeaningOf(o), k) == FirstFields(MeaningOf(o), k + 1)
  {
    AbsentIsClear(o, k);
    ClearFieldAddsNothing(MeaningOf(o), k);
  }

  /** The option's payload stands at the front of `rest`. */
  predicate Leads(o: Opts, k: nat, rest: seq<Byte>)
    requires Readable(o) && k < PIECES
  {
    var p := Payload(o, k);
    p != [] && |p| <= FIELD_MAX && |rest| > |p| && rest[..|p|] == p
      && LengthOk(Code(k), |p|) && InBuffer(Code(k), |p|, rest)
  }

  function StoredPiece(o: Opts, k: nat, rest: seq<Byte>, g: Opts): Opts
    requires Readable(o) && k < PIECES && Sized(g) && Leads(o, k, rest)
  {
    Stored(g, Code(k), |Payload(o, k)|, rest)
  }

  lemma StoresScalar(o: Opts, k: nat, rest: seq<Byte>, g: Opts)
    requires k == 0 || k == 1
    requires Readable(o) && Fit(o) && Counted(g) && Leads(o, k, rest)
    ensures
      var h := StoredPiece(o, k, rest, g);
      Counted(h) && Raw(h) ==
        if k == 0 then Raw(g).(messageType := o.messageType) else Raw(g).(maxSize := o.maxSize)
  {
    var p := Payload(o, k);
    assert rest[0] == p[0];
    if k == 1 { assert rest[1] == p[1]; }
  }

  lemma StoresWord(o: Opts, k: nat, rest: seq<Byte>, g: Opts)
    requires 3 <= k <= 6
    requires Readable(o) && Fit(o) && Counted(g) && Leads(o, k, rest)
    ensures
      var h := StoredPiece(o, k, rest, g);
      Counted(h) && Raw(h) ==
        if k == 3 then Raw(g).(requestedIp := o.requestedIp)
        else if k == 4 then Raw(g).(leaseTime := o.leaseTime)
        else if k == 5 then Raw(g).(serverId := o.serverId)
        else Raw(g).(subnet := o.subnet)
  {
    var w := if k == 3 then o.requestedIp else if k == 4 then o.leaseTime else if k == 5 then o.serverId else o.subnet;
    WordReads(w);
    WordWithin(rest, 0, Octets(w));
  }

  lemma StoresHostname(o: Opts, rest: seq<Byte>, g: Opts)
    requires Readable(o) && Fit(o) && Counted(g) && Leads(o, 2, rest) && g.hostname == Repeat(0, FIELD_MAX)
    ensures
      var h := StoredPiece(o, 2, rest, g);
      Counted(h) && Raw(h) == Raw(g).(hostname := Cleared(o.hostname))
  {
    StrnCopyStores(o.hostname, rest);
  }

  lemma StoresDomain(o: Opts, rest: seq<Byte>, g: Opts)
    requires Readable(o) && Fit(o) && Counted(g) && Leads(o, 9, rest) && g.domain == Repeat(0, FIELD_MAX)
    ensures
      var h := StoredPiece(o, 9, rest, g);
      Counted(h) && Raw(h) == Raw(g).(domain := Cleared(o.domain))
  {
    StrnCopyStores(o.domain, rest);
  }

  lemma StoresRouters(o: Opts, rest: seq<Byte>, g: Opts)
    requires Readable(o) && Fit(o) && Counted(g) && Leads(o, 7, rest)
    ensures
      var h := StoredPiece(o, 7, rest, g);
      Counted(h) && Raw(h) == Raw(g).(router := o.router[..o.routerNum])
  {
    var ws := o.router[..o.routerNum];
    WordsRead(ws, rest);
    OverlayStarts(g.router, ws);
  }

  lemma StoresDns(o: Opts, rest: seq<Byte>, g: Opts)
    requires Readable(o) && Fit(o) && Counted(g) && Leads(o, 8, rest)
    ensures
      var h := StoredPiece(o, 8, rest, g);
      Counted(h) && Raw(h) == Raw(g).(dns := o.dns[..o.dnsNum])
  {
    var ws := o.dns[..o.dnsNum];
    WordsRead(ws, rest);
    OverlayStarts(g.dns, ws);
  }

  lemma OverlayStarts<T>(dst: seq<T>, src: seq<T>)
    requires |src| <= |dst|
    ensures forall n :: 0 <= n <= |src| ==> Overlaid(dst, src)[..n] == src[..n]
    ensures Overlaid(dst, src)[..|src|] == src
  {
  }

  lemma StoresClientId(o: Opts, rest: seq<Byte>, g: Opts)
    requires Readable(o) && Fit(o) && Counted(g) && Leads(o, 10, rest)
    ensures
      var h := StoredPiece(o, 10, rest, g);
      Counted(h) && Raw(h) == Raw(g).(clientIdType := o.clientIdType, clientId := o.clientId[..o.clientIdLength])
  {
    var n := o.clientIdLength;
    var payload := Payload(o, 10);
    assert rest[0] == payload[0];
    CopiedId(rest, payload, o.clientId[..n]);
    OverlayStarts(g.clientId, rest[1..n + 2]);
  }

  /** The copy of a client id takes one octet too many, which does no harm. */
  lemma CopiedId(rest: seq<Byte>, payload: seq<Byte>, id: seq<Byte>)
    requires |payload| == |id| + 1 < |rest| && rest[..|payload|] == payload && payload[1..] == id
    ensures rest[1..|id| + 2][..|id|] == id
  {
    assert rest[1..|id| + 1] == rest[..|payload|][1..];
  }

  lemma StoresParams(o: Opts, rest: seq<Byte>, g: Opts)
    requires Readable(o) && Fit(o) && Counted(g) && Leads(o, 11, rest)
    ensures
      var h := StoredPiece(o, 11, rest, g);
      Counted(h) && Raw(h) == Raw(g).(paramList := o.paramList[..o.paramSize])
  {
    OverlayStarts(g.paramList, Payload(o, 11));
  }

  /** Each option adds its field to what has arrived. */
  lemma Stores(o: Opts, k: nat, rest: seq<Byte>, g: Opts)
    requires Readable(o) && Fit(o) && Counted(g) && k < PIECES && Leads(o, k, rest)
    requires Raw(g) == FirstFields(MeaningOf(o), k)
    ensures
      var h := StoredPiece(o, k, rest, g);
      Counted(h) && Raw(h) == FirstFields(MeaningOf(o), k + 1)
  {
    if k <= 1 {
      StoresScalar(o, k, rest, g);
    } else if k == 2 {
      assert Raw(g).hostname == g.hostname;
      StoresHostname(o, rest, g);
    } else if k == 9 {
      assert Raw(g).domain == g.domain;
      StoresDomain(o, rest, g);
    } else if k <= 6 {
      StoresWord(o, k, rest, g);
    } else if k == 7 {
      StoresRouters(o, rest, g);
    } else if k == 8 {
      StoresDns(o, rest, g);
    } else if k == 10 {
      StoresClientId(o, rest, g);
    } else {
      StoresParams(o, rest, g);
    }
  }

  lemma ReadsPiece(o: Opts, k: nat, buf: seq<Byte>, pos: nat, next: nat, g: Opts) returns (rest: seq<Byte>, h: Opts)
    requires Readable(o) && Fit(o) && Sized(g) && k < PIECES && Payload(o, k) != []
    requires next == pos + |Piece(o, k)| < |buf| && buf[pos..next] == Piece(o, k)
    ensures Leads(o, k, rest) && h == StoredPiece(o, k, rest, g)
    ensures Sized(h) && ParseFrom(buf, pos, g) == ParseFrom(buf, next, h)
  {
    PieceSize(o, k);
    rest := ReadsOption(buf, pos, Code(k), Payload(o, k), g);
    h := StoredPiece(o, k, rest, g);
  }

  /** Reading on past piece `k`. */
  lemma Gets(o: Opts, k: nat, buf: seq<Byte>, pos: nat, next: nat, g: Opts) returns (h: Opts)
    requires Readable(o) && Fit(o) && Counted(g) && k < PIECES && Raw(g) == FirstFields(MeaningOf(o), k)
    requires next == pos + |Piece(o, k)| < |buf| && buf[pos..next] == Piece(o, k)
    ensures Counted(h) && Raw(h) == FirstFields(MeaningOf(o), k + 1)
    ensures ParseFrom(buf, pos, g) == ParseFrom(buf, next, h)
  {
    if Payload(o, k) == [] {
      Absent(o, k);
      h := g;
    } else {
      var rest, stored := ReadsPiece(o, k, buf, pos, next, g);
      Stores(o, k, rest, g);
      h := stored;
    }
  }

  // ---- the whole buffer ----

  lemma {:induction false} JoinedIsPrefix<T>(ps: seq<seq<T>>, k: nat, end: seq<T>)
    requires k <= |ps|
    ensures
      var w, n := Joined(ps, |ps|) + end, |Joined(ps, k)|;
      n <= |w| - |end| && w[..n] == Joined(ps, k)
    decreases |ps| - k
  {
    if k < |ps| {
      JoinedIsPrefix(ps, k + 1, end);
      var w, n := Joined(ps, |ps|) + end, |Joined(ps, k)|;
      assert w[..n] == w[..|Joined(ps, k + 1)|][..n];
    }
  }

  lemma PieceInPlace<T>(ps: seq<seq<T>>, k: nat, end: seq<T>, w: seq<T>, at: nat) returns (next: nat)
    requires k < |ps| && w == Joined(ps, |ps|) + end && at == |Joined(ps, k)|
    ensures next == at + |ps[k]| == |Joined(ps, k + 1)|
    ensures next <= |w| - |end| && w[at..next] == ps[k]
  {
    JoinedIsPrefix(ps, k + 1, end);
    next := at + |ps[k]|;
    assert w[at..next] == w[..next][at..];
  }

  lemma NothingYet(o: Opts)
    requires Readable(o)
    ensures Counted(Zeroed()) && Raw(Zeroed()) == FirstFields(MeaningOf(o), 0)
  {
  }

  lemma {:induction false} ReadsUpTo(o: Opts, ps: seq<seq<Byte>>, w: seq<Byte>, k: nat) returns (g: Opts, pos: nat)
    requires Readable(o) && Fit(o) && k <= PIECES && ps == AllPieces(o) && w == Joined(ps, PIECES) + [END]
    ensures Counted(g) && Raw(g) == FirstFields(MeaningOf(o), k)
    ensures pos == |Joined(ps, k)| && ParseFrom(w, 0, Zeroed()) == ParseFrom(w, pos, g)
  {
    if k == 0 {
      NothingYet(o);
      g, pos := Zeroed(), 0;
    } else {
      var before, at := ReadsUpTo(o, ps, w, k - 1);
      pos := PieceInPlace(ps, k - 1, [END], w, at);
      g := Gets(o, k - 1, w, at, pos, before);
    }
  }

  lemma AllFields(o: Opts, g: Opts)
    requires Readable(o) && Counted(g) && Raw(g) == FirstFields(MeaningOf(o), PIECES)
    ensures Same(o, g)
  {
    ClearedTwice(o.hostname);
    ClearedTwice(o.domain);
    assert Raw(g).hostname == g.hostname && Raw(g).domain == g.domain;
  }

  lemma ClearedTwice(s: seq<Byte>)
    requires |s| == FIELD_MAX
    ensures Cleared(Cleared(s)) == Cleared(s)
  {
    TextAlone(Text(s), Repeat(0, FIELD_MAX)[StrLen(s)..]);
  }

  /** What the parser fills in always fits. */
  lemma {:induction false} ParseFits(buf: seq<Byte>, pos: nat, g: Opts)
    requires Counted(g) && Fit(g)
    ensures Counted(ParseFrom(buf, pos, g).o) && Fit(ParseFrom(buf, pos, g).o)
    decreases |buf| - pos
  {
    if pos + 2 < |buf| && buf[pos] != END && buf[pos] != PAD {
      var code, len, rest := buf[pos], buf[pos + 1], buf[pos + 2..];
      if LengthOk(code, len) && InBuffer(code, len, rest) {
        ParseFits(buf, pos + 2 + len, Stored(g, code, len, rest));
      }
    }
  }

  lemma FitCarriesOver(o: Opts, g: Opts)
    requires Counted(o) && Counted(g) && Same(o, g) && Fit(g)
    ensures Fit(o)
  {
    var a, b := MeaningOf(o), MeaningOf(g);
    assert |a.router| == o.routerNum && |b.router| == g.routerNum;
    assert |a.dns| == o.dnsNum && |b.dns| == g.dnsNum;
    assert |a.clientId| == o.clientIdLength && |b.clientId| == g.clientIdLength;
  }

  lemma FitComesBack(o: Opts)
    requires Readable(o) && Fit(o)
    ensures
      var r := ParseFrom(Written(o), 0, Zeroed());
      r.Parsed? && Counted(r.o) && Same(o, r.o)
  {
    var ps := AllPieces(o);
    var w := Written(o);
    var g, pos := ReadsUpTo(o, ps, w, PIECES);
    assert w[pos] == END;
    AllFields(o, g);
  }

  /** Written options come back, every field that means something, exactly when they fit. */
  lemma WrittenComesBack(o: Opts)
    requires Readable(o)
    ensures
      var r := ParseFrom(Written(o), 0, Zeroed());
      Counted(r.o) && (r.Parsed? && Same(o, r.o) <==> Fit(o))
  {
    var r := ParseFrom(Written(o), 0, Zeroed());
    ParseFits(Written(o), 0, Zeroed());
    if Fit(o) {
      FitComesBack(o);
    } else if Same(o, r.o) {
      FitCarriesOver(o, r.o);
    }
  }
}
