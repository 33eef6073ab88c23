/** The search for the file-system magic in a firmware image that is read piece by piece. */
module MagicScan {
  import opened Bytes
  import opened Search

  const MAGIC: bytes := [104, 115, 113, 115]

  /** The last bytes of s, at most n of them. */
  function Tail(s: bytes, n: nat): (t: bytes)
    ensures |t| == if |s| < n then |s| else n
  {
    if |s| < n then s else s[|s| - n..]
  }

  /** Every read returns something; the read at the end of the file returns nothing. */
  predicate Reads(pieces: seq<bytes>)
  {
    forall i :: 0 <= i < |pieces| ==> pieces[i] != []
  }

  /**
   * The offset printed, or None for a failing exit, for any division of the file into reads.
   * Only a window over the newest read and the last bytes of the one before is ever searched.
   */
  method ScanForMagic(pieces: seq<bytes>) returns (offset: Option<nat>)
    requires Reads(pieces)
    ensures offset.Some? ==> FirstAt(Ascii("hsqs"), Concat(pieces), offset.value)
    ensures offset.None? <==> !Occurs(Ascii("hsqs"), Concat(pieces))
  {
    hide Concat, At;
    var prev: bytes := [];
    var size: nat := 0;
    var k := 0;
    ghost var seen: bytes := [];
    NothingRead();
    MagicIsHsqs();
    while true
      invariant 0 <= k <= |pieces|
      invariant seen == Concat(pieces[..k]) && size == |seen|
      invariant prev == Tail(seen, |MAGIC|)
      invariant !Occurs(MAGIC, seen)
      decreases |pieces| - k
    {
      var buf := if k < |pieces| then pieces[k] else [];
      if buf == [] {
        break;
      }
      var window := prev + buf;
      var i := Find(window, MAGIC);
      Extended(pieces, k);
      if i.Some? {
        FoundInWindow(seen, buf, i.value);
        FirstInPrefix(MAGIC, seen + buf, Concat(pieces[k + 1..]), size - |prev| + i.value);
        offset := Some(size - |prev| + i.value);
        return;
      }
      NotInWindow(seen, buf);
      TailOfWindow(seen, buf);
      prev := Tail(window, |MAGIC|);
      seen := seen + buf;
      size := size + |buf|;
      k := k + 1;
    }
    assert pieces[..k] == pieces;
    offset := None;
  }

  lemma MagicIsHsqs()
    ensures MAGIC == Ascii("hsqs")
  {
  }

  lemma NothingRead()
    ensures Concat([]) == [] && !Occurs(MAGIC, [])
  {
  }

  lemma Extended(pieces: seq<bytes>, k: nat)
    requires k < |pieces|
    ensures Concat(pieces[..k + 1]) == Concat(pieces[..k]) + pieces[k]
    ensures Concat(pieces) == Concat(pieces[..k]) + pieces[k] + Concat(pieces[k + 1..])
  {
    hide Concat;
    SplitAt(pieces, k);
    Parts(pieces[..k], pieces[k], pieces[k + 1..]);
  }

  lemma SplitAt(pieces: seq<bytes>, k: nat)
    requires k < |pieces|
    ensures pieces[..k + 1] == pieces[..k] + [pieces[k]]
    ensures pieces == pieces[..k] + [pieces[k]] + pieces[k + 1..]
  {
  }

  lemma Parts(front: seq<bytes>, piece: bytes, back: seq<bytes>)
    ensures Concat(front + [piece]) == Concat(front) + piece
    ensures Concat(front + [piece] + back) == Concat(front) + piece + Concat(back)
  {
    hide Concat;
    ConcatSnoc(front, piece);
    ConcatAppend(front + [piece], back);
  }

  /** An occurrence in the window is one in the file, as far behind as the bytes that have been dropped. */
  lemma InWindow(seen: bytes, buf: bytes, n: nat, i: int)
    requires n <= |seen| && i >= n
    ensures At(MAGIC, seen + buf, i) <==> At(MAGIC, seen[n..] + buf, i - n)
  {
  }

  /** A place before the window would have shown the magic in what was read earlier. */
  lemma BeforeWindow(seen: bytes, buf: bytes, i: int)
    requires !Occurs(MAGIC, seen) && i < |seen| - |Tail(seen, |MAGIC|)|
    ensures !At(MAGIC, seen + buf, i)
  {
    if i >= 0 {
      AtInPrefix(MAGIC, seen, buf, i);
    }
  }

  lemma TailIsSuffix(s: bytes, n: nat)
    ensures Tail(s, n) == s[|s| - |Tail(s, n)|..]
  {
  }

  lemma FoundInWindow(seen: bytes, buf: bytes, i: nat)
    requires !Occurs(MAGIC, seen) && FirstAt(MAGIC, Tail(seen, |MAGIC|) + buf, i)
    ensures FirstAt(MAGIC, seen + buf, |seen| - |Tail(seen, |MAGIC|)| + i)
  {
    hide At;
    var n := |seen| - |Tail(seen, |MAGIC|)|;
    TailIsSuffix(seen, |MAGIC|);
    InWindow(seen, buf, n, n + i);
    forall j | 0 <= j < n + i ensures !At(MAGIC, seen + buf, j) {
      if j < n {
        BeforeWindow(seen, buf, j);
      } else {
        InWindow(seen, buf, n, j);
      }
    }
  }

  lemma NotInWindow(seen: bytes, buf: bytes)
    requires !Occurs(MAGIC, seen) && !Occurs(MAGIC, Tail(seen, |MAGIC|) + buf)
    ensures !Occurs(MAGIC, seen + buf)
  {
    hide At;
    var n := |seen| - |Tail(seen, |MAGIC|)|;
    TailIsSuffix(seen, |MAGIC|);
    forall j ensures !At(MAGIC, seen + buf, j) {
      if j < n {
        BeforeWindow(seen, buf, j);
      } else {
        InWindow(seen, buf, n, j);
      }
    }
  }

  lemma TailOfWindow(seen: bytes, buf: bytes)
    ensures Tail(Tail(seen, |MAGIC|) + buf, |MAGIC|) == Tail(seen + buf, |MAGIC|)
  {
  }
}
