/** The octets of DHCP options (RFC 2132), options that the parser does not know, and texts that are
    cut short (dhcp/options.c:24-295). */
module DhcpLayout {
  import opened Words
  import opened DhcpOptions
  import opened DhcpRoundTrip

  // ---- numbers ----

  /** The options that are written, in order: message type, maximum size, host name, requested address,
      lease time, server, subnet mask, routers, name servers, domain name, client, parameters. */
  lemma CodesOfRfc2132(k: nat)
    requires k < 12
    ensures PIECES == 12 && Code(k) == [53, 57, 12, 50, 51, 54, 1, 3, 6, 15, 61, 55][k]
    ensures PAD == 0 && END == 255
  {
  }

  /** Numbers are written with the most significant octet first, and zero not at all. */
  lemma NumbersInNetworkOrder(o: Opts, k: nat)
    requires Readable(o) && k < PIECES
    ensures var p := Payload(o, k);
            && (k == 0 ==> if o.messageType == 0 then p == [] else p == [o.messageType])
            && (k == 1 ==> if o.maxSize == 0 then p == [] else |p| == 2 && 256 * (p[0] as int) + p[1] == o.maxSize)
            && (3 <= k <= 6 ==>
                  var n := if k == 3 then o.requestedIp else if k == 4 then o.leaseTime else if k == 5 then o.serverId else o.subnet;
                  if n == 0 then p == [] else |p| == 4 && BigEndian(p[0], p[1], p[2], p[3]) == n)
  {
    OctetsSpell(o.requestedIp);
    OctetsSpell(o.leaseTime);
    OctetsSpell(o.serverId);
    OctetsSpell(o.subnet);
  }

  /** So are the addresses of routers and name servers, four octets each. */
  lemma {:induction false} AddressesInNetworkOrder(ws: seq<Word>, i: nat)
    requires i < |ws|
    ensures var s := OctetsOf(ws); BigEndian(s[4 * i], s[4 * i + 1], s[4 * i + 2], s[4 * i + 3]) == ws[i]
    decreases |ws|
  {
    var n := |ws| - 1;
    if i < n {
      AddressesInNetworkOrder(ws[..n], i);
    } else {
      OctetsSpell(ws[n]);
    }
  }

  // ---- options that are not known ----

  /** An option with any other number is passed over, whatever it carries, and so is the one that says
      that fields of the packet hold options. */
  lemma UnknownIsSkipped(buf: seq<Byte>, pos: nat, o: Opts)
    requires Sized(o) && pos + 2 < |buf|
    requires buf[pos] !in {0, 1, 3, 6, 12, 15, 50, 51, 52, 53, 54, 55, 57, 61, 255} || (buf[pos] == 52 && buf[pos + 1] == 1)
    ensures ParseFrom(buf, pos, o) == ParseFrom(buf, pos + 2 + buf[pos + 1], o)
  {
    assert ParseFrom(buf, pos, o) == ParseOption(buf, pos, o);
  }

  // ---- cut texts ----

  /** The octet that ends the options, if there is one where the lengths lead to. */
  function Stop(buf: seq<Byte>, pos: nat): (e: int)
    ensures e == -1 || pos <= e < |buf|
    decreases |buf| - pos
  {
    if pos >= |buf| then -1
    else if buf[pos] == END then pos
    else if buf[pos] == PAD || pos + 2 >= |buf| then -1
    else Stop(buf, pos + 2 + buf[pos + 1])
  }

  lemma {:induction false} ParsedStops(buf: seq<Byte>, pos: nat, o: Opts)
    requires Sized(o) && ParseFrom(buf, pos, o).Parsed?
    ensures Stop(buf, pos) >= 0
    decreases |buf| - pos
  {
    assert ParseFrom(buf, pos, o) == ParseOption(buf, pos, o);
    if buf[pos] != END {
      var code, len, rest := buf[pos], buf[pos + 1], buf[pos + 2..];
      ParsedStops(buf, pos + 2 + len, Stored(o, code, len, rest));
    }
  }

  lemma {:induction false} StopOfPart(buf: seq<Byte>, n: nat, pos: nat)
    requires n <= |buf| && Stop(buf[..n], pos) >= 0
    ensures Stop(buf, pos) == Stop(buf[..n], pos) < n
    decreases |buf| - pos
  {
    if buf[pos] != END { StopOfPart(buf, n, pos + 2 + buf[pos + 1]); }
  }

  /** In what the writer writes, the lengths lead to the last octet. */
  lemma {:induction false} WrittenStops(o: Opts, ps: seq<seq<Byte>>, w: seq<Byte>, k: nat)
    requires Readable(o) && Fit(o) && ps == AllPieces(o) && w == Joined(ps, PIECES) + [END] && k <= PIECES
    ensures Stop(w, |Joined(ps, k)|) == |w| - 1
    decreases PIECES - k
  {
    if k < PIECES {
      var at := |Joined(ps, k)|;
      var next := PieceInPlace(ps, k, [END], w, at);
      WrittenStops(o, ps, w, k + 1);
      PiecePassed(o, k, w, at, next);
    } else {
      JoinedIsPrefix(ps, PIECES, [END]);
    }
  }

  lemma PiecePassed(o: Opts, k: nat, w: seq<Byte>, at: nat, next: nat)
    requires Readable(o) && Fit(o) && k < PIECES && next == at + |Piece(o, k)| < |w| && w[at..next] == Piece(o, k)
    ensures Stop(w, at) == Stop(w, next)
  {
    PieceSize(o, k);
    if Payload(o, k) != [] { PieceIsOption(o, k, w, at, next); }
  }

  lemma PieceIsOption(o: Opts, k: nat, w: seq<Byte>, at: nat, next: nat)
    requires Readable(o) && Fit(o) && k < PIECES && Payload(o, k) != []
    requires next == at + |Piece(o, k)| < |w| && w[at..next] == Piece(o, k)
    ensures at + 2 < |w| && w[at] == Code(k) && next == at + 2 + w[at + 1]
  {
    PieceSize(o, k);
    assert w[at] == w[at..next][0] && w[at + 1] == w[at..next][1];
  }

  /** What the writer writes, cut short anywhere, is not accepted. */
  lemma CutNeverParses(o: Opts, n: nat)
    requires Readable(o) && Fit(o) && n < |Written(o)|
    ensures !ParseFrom(Written(o)[..n], 0, Zeroed()).Parsed?
  {
    var w := Written(o);
    if ParseFrom(w[..n], 0, Zeroed()).Parsed? {
      ParsedStops(w[..n], 0, Zeroed());
      StopOfPart(w, n, 0);
      WrittenStops(o, AllPieces(o), w, 0);
    }
  }
}
