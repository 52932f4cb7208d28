/** The growable circular buffer (ynet/buffer.cpp), proved against a plain byte queue. */
module YnetBuffer {
  import opened Texts

  type byte = b: int | 0 <= b < 256

  /** The fields of a `Buffer` as values: the cells and the two cursors. */
  datatype Ring<T> = Ring(cells: seq<T>, start: int, end: int)

  predicate Good<T>(r: Ring<T>) {
    0 <= r.start < |r.cells| && 0 <= r.end < |r.cells|
  }

  /** The bytes waiting to be read, oldest first. */
  function Queue<T>(r: Ring<T>): seq<T>
    requires Good(r)
  {
    if r.start <= r.end then r.cells[r.start..r.end] else r.cells[r.start..] + r.cells[..r.end]
  }

  /** The remainder of C++, which takes the sign of its left operand. */
  function CppRem(a: int, b: int): int
    requires b > 0
  {
    if a >= 0 then a % b else -((-a) % b)
  }

  lemma RemSmall(a: int, b: int)
    requires b > 0 && -b < a < 2 * b
    ensures CppRem(a, b) == if a < b then a else a - b
  {
    if 0 <= a < b {
      ModSmall(a, b);
    } else if a < 0 {
      ModSmall(-a, b);
    } else {
      ModOnce(a, b);
    }
  }

  lemma ModSmall(a: nat, b: nat)
    requires a < b
    ensures a % b == a
  {
  }

  lemma ModOnce(a: nat, b: nat)
    requires b <= a < 2 * b
    ensures a % b == a - b
  {
    assert a == b * 1 + (a - b);
  }

  /** `SizeInternal`. */
  function SizeOf(start: int, end: int, cells: int): int {
    if start == end then 0 else if start < end then end - start else cells - (start - end)
  }

  function Advanced<T>(r: Ring<T>, n: nat): Ring<T>
    requires |r.cells| > 0
  {
    r.(start := CppRem(r.start + n, |r.cells|))
  }

  function Unadvanced<T>(r: Ring<T>, n: nat): Ring<T>
    requires |r.cells| > 0
  {
    r.(start := CppRem(r.start - n, |r.cells|))
  }

  lemma SizeIsQueueLength<T>(r: Ring<T>)
    requires Good(r)
    ensures SizeOf(r.start, r.end, |r.cells|) == |Queue(r)| < |r.cells|
  {
  }

  /** Advancing takes bytes off the front of the queue, across any wrap. */
  lemma AdvanceTakesFront<T>(r: Ring<T>, n: nat)
    requires Good(r) && n <= |Queue(r)|
    ensures Good(Advanced(r, n)) && Queue(Advanced(r, n)) == Queue(r)[n..]
  {
    RemSmall(r.start + n, |r.cells|);
  }

  lemma SplitBefore<T>(s: seq<T>, i: nat, j: nat, tail: seq<T>)
    requires i <= j <= |s|
    ensures s[i..] + tail == s[i..j] + (s[j..] + tail)
  {
    assert s[i..] == s[i..j] + s[j..];
    Reassociate(s[i..j], s[j..], tail);
  }

  lemma StepBack<T>(r: Ring<T>, n: nat)
    requires Good(r) && n <= r.start && n < |r.cells| - |Queue(r)|
    ensures Queue(r.(start := r.start - n)) == r.cells[r.start - n..r.start] + Queue(r)
  {
    var p, cells := r.start - n, r.cells;
    if r.start > r.end {
      assert p > r.end;
      calc {
        Queue(r.(start := p));
        cells[p..] + cells[..r.end];
        { SplitBefore(cells, p, r.start, cells[..r.end]); }
        cells[p..r.start] + (cells[r.start..] + cells[..r.end]);
        cells[p..r.start] + Queue(r);
      }
    } else {
      calc {
        Queue(r.(start := p));
        cells[p..r.end];
        { SliceSplit(cells, p, r.start, r.end); }
        cells[p..r.start] + cells[r.start..r.end];
        cells[p..r.start] + Queue(r);
      }
    }
  }

  /** Pushing back puts the bytes before the cursor in front of the queue, but only when it
      does not cross index 0; otherwise the cursor goes negative. */
  lemma UnadvancePutsBack<T>(r: Ring<T>, n: nat)
    requires Good(r) && n < |r.cells| - |Queue(r)|
    ensures Unadvanced(r, n) == r.(start := r.start - n)
    ensures Good(Unadvanced(r, n)) <==> n <= r.start
    ensures n <= r.start ==> Queue(Unadvanced(r, n)) == r.cells[r.start - n..r.start] + Queue(r)
  {
    RemSmall(r.start - n, |r.cells|);
    assert Unadvanced(r, n) == r.(start := r.start - n);
    if n <= r.start {
      StepBack(r, n);
    }
  }

  /** Pushback undoes reading exactly when the bytes read did not reach the end of the cells. */
  lemma UnadvanceUndoesAdvanceIffNoWrap<T>(r: Ring<T>, n: nat)
    requires Good(r) && 0 < n <= |Queue(r)|
    ensures Unadvanced(Advanced(r, n), n) == r <==> r.start + n < |r.cells|
    ensures Good(Unadvanced(Advanced(r, n), n)) <==> r.start + n < |r.cells|
  {
    RemSmall(r.start + n, |r.cells|);
    RemSmall(Advanced(r, n).start - n, |r.cells|);
  }

  /** The cursor after reading `reach` bytes and pushing all but the first `n` of them back. */
  function Moved<T>(r: Ring<T>, n: nat, reach: nat): Ring<T> {
    r.(start := r.start + n - if r.start + reach < |r.cells| then 0 else |r.cells|)
  }

  lemma ReadingMoves<T>(r: Ring<T>, n: nat)
    requires Good(r) && n <= |Queue(r)|
    ensures Moved(r, n, n) == Advanced(r, n)
  {
    RemSmall(r.start + n, |r.cells|);
  }

  /** More reading and pushing back, after `n` bytes have been read. */
  lemma MovedOn<T>(r: Ring<T>, n: nat, k: nat, reach: nat)
    requires Good(r) && k <= reach && n + reach <= |Queue(r)|
    ensures Good(Moved(r, n, n)) && Queue(Moved(r, n, n)) == Queue(r)[n..]
    ensures Moved(Moved(r, n, n), k, reach) == Moved(r, n + k, n + reach)
  {
    ReadingMoves(r, n);
    AdvanceTakesFront(r, n);
  }

  /** Pushback after reading, also when an earlier pushback has made the cursor negative. */
  lemma MovedBack<T>(r: Ring<T>, n: nat, reach: nat, len: nat)
    requires Good(r) && len <= n <= reach <= |Queue(r)|
    ensures Unadvanced(Moved(r, n, reach), len) == Moved(r, n - len, reach)
    ensures SizeOf(Moved(r, n, reach).start, r.end, |r.cells|) == |Queue(r)| - n
  {
    RemSmall(Moved(r, n, reach).start - len, |r.cells|);
  }

  /** Exactly when the cursor is good after that: when the bytes pushed back do not include the
      last cell.  The bytes kept are then off the front of the queue. */
  lemma MovedIsGood<T>(r: Ring<T>, n: nat, reach: nat)
    requires Good(r) && n <= reach <= |Queue(r)|
    ensures Good(Moved(r, n, reach)) <==> !(r.start + n < |r.cells| <= r.start + reach)
    ensures Good(Moved(r, n, reach)) ==> Queue(Moved(r, n, reach)) == Queue(r)[n..]
  {
    if Good(Moved(r, n, reach)) {
      MovedOn(r, n, 0, 0);
    }
  }

  /** The capacity reached by doubling `c` until `need` fits. */
  function Doubled(c: nat, need: nat): nat
    requires c > 0 || need <= c
    decreases need - c
  {
    if need <= c then c else Doubled(2 * c, need)
  }

  /** `c` times the `k`-th power of two. */
  function Scaled(c: nat, k: nat): nat {
    if k == 0 then c else 2 * Scaled(c, k - 1)
  }

  lemma {:induction false} ScaledShift(c: nat, k: nat)
    ensures Scaled(2 * c, k) == Scaled(c, k + 1)
  {
    if k > 0 {
      ScaledShift(c, k - 1);
    }
  }

  /** Doubling stops at the least capacity of the form c times a power of two that fits. */
  lemma {:induction false} DoubledIsLeast(c: nat, need: nat) returns (k: nat)
    requires c > 0
    ensures Doubled(c, need) == Scaled(c, k) && need <= Doubled(c, need)
    ensures k > 0 ==> Scaled(c, k - 1) < need
    decreases need - c
  {
    if need <= c {
      k := 0;
    } else {
      var j := DoubledIsLeast(2 * c, need);
      k := j + 1;
      ScaledShift(c, j);
      if j > 0 {
        ScaledShift(c, j - 1);
      }
    }
  }

  /** `cells` with `src` copied over it from index `at`. */
  function Splice<T>(cells: seq<T>, at: nat, src: seq<T>): (r: seq<T>)
    requires at + |src| <= |cells|
    ensures |r| == |cells|
  {
    cells[..at] + src + cells[at + |src|..]
  }

  lemma SpliceParts<T>(cells: seq<T>, at: nat, src: seq<T>, i: nat)
    requires at + |src| <= |cells| && i <= |cells|
    ensures i <= at ==> Splice(cells, at, src)[i..at + |src|] == cells[i..at] + src
    ensures i >= at + |src| ==> Splice(cells, at, src)[i..] == cells[i..]
  {
  }

  function EndAfter<T>(r: Ring<T>, n: nat): int
    requires Good(r)
  {
    if r.end + n < |r.cells| then r.end + n else r.end + n - |r.cells|
  }

  lemma WriteInGap<T>(r: Ring<T>, data: seq<T>)
    requires Good(r) && r.end < r.start && r.end + |data| < r.start
    ensures Queue(Ring(Splice(r.cells, r.end, data), r.start, r.end + |data|)) == Queue(r) + data
  {
    SpliceParts(r.cells, r.end, data, r.start);
    SpliceParts(r.cells, r.end, data, 0);
    var cells := Splice(r.cells, r.end, data);
    assert cells[0..r.end + |data|] == cells[..r.end + |data|] && r.cells[0..r.end] == r.cells[..r.end];
    Reassociate(r.cells[r.start..], r.cells[..r.end], data);
  }

  lemma WriteToBrim<T>(r: Ring<T>, data: seq<T>)
    requires Good(r) && 0 < r.start <= r.end && r.end + |data| == |r.cells|
    ensures Queue(Ring(Splice(r.cells, r.end, data), r.start, 0)) == Queue(r) + data
  {
    SpliceParts(r.cells, r.end, data, r.start);
    var cells := Splice(r.cells, r.end, data);
    assert cells[r.start..|cells|] == cells[r.start..] && cells[..0] == [];
  }

  /** `data` copied behind the end cursor without reaching past the cells... */
  lemma WriteWithoutWrap<T>(r: Ring<T>, data: seq<T>)
    requires Good(r) && |data| < |r.cells| - |Queue(r)| && r.end + |data| <= |r.cells|
    ensures var r' := Ring(Splice(r.cells, r.end, data), r.start, EndAfter(r, |data|));
            Good(r') && Queue(r') == Queue(r) + data
  {
    if r.start > r.end {
      WriteInGap(r, data);
    } else if r.end + |data| == |r.cells| {
      WriteToBrim(r, data);
    } else {
      SpliceParts(r.cells, r.end, data, r.start);
    }
  }

  lemma SliceSplit<T>(s: seq<T>, i: nat, j: nat, k: nat)
    requires i <= j <= k <= |s|
    ensures s[i..k] == s[i..j] + s[j..k]
    ensures k == |s| ==> s[i..] == s[i..k] && s[j..] == s[j..k]
  {
  }

  /** ...and split in two at the end of the cells. */
  lemma WriteWithWrap<T>(r: Ring<T>, data: seq<T>)
    requires Good(r) && |data| < |r.cells| - |Queue(r)| && r.end + |data| > |r.cells|
    ensures var f := |r.cells| - r.end;
            var r' := Ring(Splice(Splice(r.cells, r.end, data[..f]), 0, data[f..]), r.start, EndAfter(r, |data|));
            Good(r') && Queue(r') == Queue(r) + data
  {
    var f := |r.cells| - r.end;
    var once := Splice(r.cells, r.end, data[..f]);
    var cells := Splice(once, 0, data[f..]);
    SpliceParts(r.cells, r.end, data[..f], r.start);
    SpliceParts(once, 0, data[f..], r.start);
    SpliceParts(once, 0, data[f..], 0);
    assert once[r.start..] == once[r.start..r.end + f];
    assert cells[..|data| - f] == cells[0..0 + |data[f..]|] == data[f..];
    Reassociate(r.cells[r.start..r.end], data[..f], data[f..]);
    assert data[..f] + data[f..] == data;
  }

  class Buffer {
    var cells: array<byte>
    var start: int
    var end: int

    ghost function View(): Ring<byte>
      reads this, cells
    {
      Ring(cells[..], start, end)
    }

    ghost predicate Valid()
      reads this, cells
    {
      Good(View())
    }

    ghost function Contents(): seq<byte>
      reads this, cells
      requires Valid()
    {
      Queue(View())
    }

    function Capacity(): int
      reads this
    {
      cells.Length - 1
    }

    constructor (size: nat)
      ensures Valid() && Contents() == [] && Capacity() == size && fresh(cells)
    {
      cells := new byte[size + 1];
      start, end := 0, 0;
    }

    method Size() returns (n: int)
      requires Valid()
      ensures n == |Contents()|
    {
      SizeIsQueueLength(View());
      n := SizeInternal();
    }

    function SizeInternal(): (n: int)
      reads this, cells
      ensures Valid() ==> n == |Contents()| < cells.Length
    {
      assert Valid() ==> SizeOf(start, end, cells.Length) == |Contents()| < cells.Length by {
        if Valid() {
          SizeIsQueueLength(View());
        }
      }
      SizeOf(start, end, cells.Length)
    }

    method SizeLeft() returns (n: int)
      requires Valid()
      ensures n == Capacity() - |Contents()| >= 0
    {
      n := cells.Length - SizeInternal() - 1;
    }

    method Peek(len: nat) returns (ok: bool, data: seq<byte>)
      requires Valid()
      ensures ok <==> len <= |Contents()|
      ensures ok ==> data == Contents()[..len]
    {
      data := [];
      if len > SizeInternal() {
        return false, data;
      }
      var from, left := start, len;
      if start + len > cells.Length {
        var forward := cells.Length - start;
        data := cells[start..];
        from, left := 0, len - forward;
      }
      if left > 0 {
        data := data + cells[from..from + left];
      }
      return true, data;
    }

    method Read(len: nat) returns (ok: bool, data: seq<byte>)
      requires Valid() && len > 0
      modifies this`start
      ensures Valid()
      ensures ok <==> len <= |old(Contents())|
      ensures ok ==> data == old(Contents())[..len]
      ensures View() == if ok then Advanced(old(View()), len) else old(View())
      ensures Contents() == if ok then old(Contents())[len..] else old(Contents())
    {
      ok, data := Peek(len);
      if ok {
        ok := Advance(len);
      }
    }

    method Advance(len: nat) returns (ok: bool)
      requires Valid() && len > 0
      modifies this`start
      ensures Valid()
      ensures ok <==> len <= |old(Contents())|
      ensures View() == if ok then Advanced(old(View()), len) else old(View())
      ensures Contents() == if ok then old(Contents())[len..] else old(Contents())
    {
      if len > SizeInternal() {
        return false;
      }
      AdvanceTakesFront(View(), len);
      start := (start + len) % cells.Length;
      return true;
    }

    /** The cursor may be negative from an earlier pushback. */
    method Unadvance(len: nat) returns (ok: bool)
      requires cells.Length > 0 && len > 0
      modifies this`start
      ensures ok <==> len <= old(Capacity() - SizeInternal())
      ensures View() == if ok then Unadvanced(old(View()), len) else old(View())
      ensures old(Valid()) && ok ==> (Valid() <==> len <= old(start))
      ensures old(Valid()) && ok && len <= old(start) ==> Contents() == old(cells[start - len..start] + Contents())
    {
      if Valid() {
        UnadvancePutsBack(View(), if len <= Capacity() - |Contents()| then len else 0);
      }
      if len > cells.Length - SizeInternal() - 1 {
        return false;
      }
      start := CppRem(start - len, cells.Length);
      return true;
    }

    method Grow()
      requires Valid()
      modifies this
      ensures Valid() && fresh(cells) && Contents() == old(Contents()) && Capacity() == 2 * old(Capacity())
    {
      var size := SizeInternal();
      var bigger := new byte[(cells.Length - 1) * 2 + 1];
      var ok, data := Peek(size);
      CopyInto(bigger, 0, data);
      cells := bigger;
      start, end := 0, size;
      assert cells[..size] == data;
    }

    /** A buffer of capacity 0 cannot grow, so the source never returns from writing to one. */
    method Write(data: seq<byte>) returns (ok: bool)
      requires Valid() && (Capacity() > 0 || data == [])
      modifies this, cells
      ensures ok && Valid() && (cells == old(cells) || fresh(cells))
      ensures Contents() == old(Contents()) + data
      ensures |data| <= old(Capacity() - |Contents()|) ==>
                cells == old(cells) && start == old(start) && end == old(EndAfter(View(), |data|))
      ensures Capacity() == Doubled(old(Capacity()), |old(Contents())| + |data|)
    {
      while |data| > cells.Length - SizeInternal() - 1
        invariant Valid() && Contents() == old(Contents()) && Capacity() >= old(Capacity())
        invariant cells == old(cells) || fresh(cells)
        invariant cells == old(cells) ==> View() == old(View())
        invariant |data| <= old(Capacity() - |Contents()|) ==> cells == old(cells)
        invariant Doubled(Capacity(), |Contents()| + |data|) == Doubled(old(Capacity()), |old(Contents())| + |data|)
        decreases |data| + |Contents()| - Capacity()
      {
        Grow();
      }
      CopyIn(data);
      return true;
    }

    /** The copying part of `Write`, once the data fits. */
    method CopyIn(data: seq<byte>)
      requires Valid() && |data| <= Capacity() - |Contents()|
      modifies this`end, cells
      ensures Valid() && Contents() == old(Contents()) + data
      ensures end == old(EndAfter(View(), |data|))
    {
      ghost var r := View();
      ghost var w := r;
      var left := |data|;
      if end + |data| > cells.Length {
        WriteWithWrap(r, data);
        ghost var f := |r.cells| - r.end;
        w := Ring(Splice(Splice(r.cells, r.end, data[..f]), 0, data[f..]), r.start, EndAfter(r, |data|));
        var forward := cells.Length - end;
        CopyInto(cells, end, data[..forward]);
        left := left - forward;
        end := 0;
        assert data[|data| - left..] == data[forward..];
      } else {
        WriteWithoutWrap(r, data);
        w := Ring(Splice(r.cells, r.end, data), r.start, EndAfter(r, |data|));
        assert data[|data| - left..] == data;
        assert left == 0 ==> Splice(r.cells, r.end, data) == r.cells;
      }
      if left > 0 {
        CopyInto(cells, end, data[|data| - left..]);
        end := WrapIndex(end + left, cells.Length);
      }
      assert View() == w;
    }
  }

  method WrapIndex(i: nat, cells: nat) returns (r: nat)
    requires i < 2 * cells
    ensures r == if i < cells then i else i - cells
  {
    if i < cells {
      ModSmall(i, cells);
    } else {
      ModOnce(i, cells);
    }
    r := i % cells;
  }

  /** `memcpy` into an array. */
  method CopyInto(dst: array<byte>, at: nat, src: seq<byte>)
    requires at + |src| <= dst.Length
    modifies dst
    ensures dst[..] == Splice(old(dst[..]), at, src)
  {
    forall i | 0 <= i < |src| {
      dst[at + i] := src[i];
    }
  }
}
