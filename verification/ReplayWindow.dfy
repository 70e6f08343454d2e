/** The anti-replay sliding window: a 16-word bitmap shifted in place, proved to be
    the plain set of accepted packet numbers (section 3.4.3 of RFC 4303). */
module ReplayWindows {
  import opened Bits

  const WINDOW_BITS: nat := 1024
  const WORDS: nat := 16

  // ---- The plain set the window refines ------------------------------------

  /** No member of s is above n. */
  ghost predicate Newest(s: set<nat>, n: nat) {
    n in s && forall m :: m in s ==> m <= n
  }

  /** The verdict on packet number p once the numbers in `accepted` were taken. */
  ghost predicate Fresh(accepted: set<nat>, p: nat) {
    p !in accepted && forall m :: m in accepted ==> m < p + WINDOW_BITS
  }

  ghost function Accept(accepted: set<nat>, p: nat): set<nat> {
    if Fresh(accepted, p) then accepted + {p} else accepted
  }

  ghost function AcceptAll(calls: seq<nat>): set<nat> {
    if calls == [] then {} else Accept(AcceptAll(calls[..|calls| - 1]), calls[|calls| - 1])
  }

  /** The verdict the i-th call of a run gets. */
  ghost predicate Verdict(calls: seq<nat>, i: nat)
    requires i < |calls|
  {
    Fresh(AcceptAll(calls[..i]), calls[i])
  }

  // ---- The bitmap ----------------------------------------------------------

  predicate MapBit(bits: seq<Word64>, k: nat)
    requires |bits| == WORDS && k < WINDOW_BITS
  {
    Bit(bits[k / 64], k % 64)
  }

  ghost predicate Clear(bits: seq<Word64>)
    requires |bits| == WORDS
  {
    forall k: nat :: k < WINDOW_BITS ==> !MapBit(bits, k)
  }

  /** Bit k of the map is set exactly when highest - k was accepted. */
  ghost predicate Tracks(bits: seq<Word64>, highest: nat, accepted: set<nat>)
    requires |bits| == WORDS
  {
    forall k: nat :: k < WINDOW_BITS ==> (MapBit(bits, k) <==> highest - k in accepted)
  }

  ghost predicate BitAdded(was: seq<Word64>, bits: seq<Word64>, offset: nat)
    requires |was| == |bits| == WORDS
  {
    forall k: nat :: k < WINDOW_BITS ==> (MapBit(bits, k) <==> k == offset || MapBit(was, k))
  }

  ghost predicate Slid(was: seq<Word64>, bits: seq<Word64>, shift: nat)
    requires |was| == |bits| == WORDS
  {
    forall k: nat :: k < WINDOW_BITS ==> (MapBit(bits, k) <==> shift <= k && MapBit(was, k - shift))
  }

  lemma FirstTracks(was: seq<Word64>, bits: seq<Word64>, p: nat)
    requires |was| == |bits| == WORDS
    requires Clear(was) && BitAdded(was, bits, 0)
    ensures Tracks(bits, p, {p})
  {
  }

  lemma SlideTracks(was: seq<Word64>, slid: seq<Word64>, bits: seq<Word64>,
                    highest: nat, p: nat, accepted: set<nat>)
    requires |was| == |slid| == |bits| == WORDS
    requires highest < p && Newest(accepted, highest) && Tracks(was, highest, accepted)
    requires Slid(was, slid, p - highest) && BitAdded(slid, bits, 0)
    ensures Tracks(bits, p, accepted + {p}) && Newest(accepted + {p}, p)
    ensures Fresh(accepted, p)
  {
    forall k: nat | k < WINDOW_BITS
      ensures MapBit(bits, k) <==> p - k in accepted + {p}
    {
      var shift := p - highest;
      if shift <= k {
        assert MapBit(was, k - shift) <==> highest - (k - shift) in accepted;
      }
    }
  }

  class ReplayWindow {
    var bits: array<Word64>
    var highest: Word64
    var seenAny: bool
    ghost var accepted: set<nat>

    ghost predicate Valid()
      reads this, bits
    {
      && bits.Length == WORDS
      && (!seenAny ==> accepted == {} && Clear(bits[..]))
      && (seenAny ==> Newest(accepted, highest) && Tracks(bits[..], highest, accepted))
    }

    constructor ()
      ensures Valid() && fresh(bits) && accepted == {}
    {
      bits := new Word64[16](_ => 0);
      highest, seenAny, accepted := 0, false, {};
      new;
      forall k: nat | k < WINDOW_BITS ensures !MapBit(bits[..], k) {
        BitOfZero(k % 64);
      }
    }

    method CheckAndUpdate(packetNumber: Word64) returns (ok: bool)
      requires Valid()
      modifies this, bits
      ensures Valid() && bits == old(bits)
      ensures ok <==> Fresh(old(accepted), packetNumber)
      ensures accepted == Accept(old(accepted), packetNumber)
    {
      ghost var was := bits[..];
      if !seenAny {
        seenAny := true;
        highest := packetNumber;
        SetBit(0);
        FirstTracks(was, bits[..], packetNumber);
        accepted := {packetNumber};
        return true;
      }
      if packetNumber > highest {
        var shift := packetNumber - highest;
        SlideForward(shift);
        ghost var slid := bits[..];
        SetBit(0);
        SlideTracks(was, slid, bits[..], highest, packetNumber, accepted);
        highest := packetNumber;
        accepted := accepted + {packetNumber};
        return true;
      }
      var offset := highest - packetNumber;
      if offset >= WINDOW_BITS {
        assert highest in accepted;
        return false;
      }
      var seen := TestBit(offset);
      assert highest - offset == packetNumber;
      if seen {
        return false;
      }
      SetBit(offset);
      accepted := accepted + {packetNumber};
      return true;
    }

    method Reset()
      requires Valid()
      modifies this, bits
      ensures Valid() && bits == old(bits) && accepted == {}
    {
      ClearBits();
      highest, seenAny, accepted := 0, false, {};
    }

    method TestBit(offset: nat) returns (b: bool)
      requires bits.Length == WORDS && offset < WINDOW_BITS
      ensures b == MapBit(bits[..], offset)
    {
      BitShr(bits[offset / 64], offset % 64, 0);
      b := Shr(bits[offset / 64], offset % 64) % 2 == 1;
    }

    method SetBit(offset: nat)
      requires bits.Length == WORDS && offset < WINDOW_BITS
      modifies bits
      ensures BitAdded(old(bits[..]), bits[..], offset)
    {
      var i, j := offset / 64, offset % 64;
      ghost var word := bits[i];
      WordSizes();
      ShlBound(64, 1, j);
      OrBound(word, Shl(64, 1, j), 64);
      bits[i] := Or(bits[i], Shl(64, 1, j));
      forall k: nat | k < WINDOW_BITS
        ensures MapBit(bits[..], k) <==> k == offset || MapBit(old(bits[..]), k)
      {
        if k / 64 == i {
          BitOr(word, Shl(64, 1, j), k % 64);
          BitShl(64, 1, j, k % 64);
          if j <= k % 64 { OneBit(k % 64 - j); }
        }
      }
    }

    method ClearBits()
      requires bits.Length == WORDS
      modifies bits
      ensures Clear(bits[..])
    {
      for i := 0 to WORDS
        invariant forall w :: 0 <= w < i ==> bits[w] == 0
      {
        bits[i] := 0;
      }
      forall k: nat | k < WINDOW_BITS ensures !MapBit(bits[..], k) {
        BitOfZero(k % 64);
      }
    }

    method SlideForward(shift: nat)
      requires bits.Length == WORDS && 0 < shift
      modifies bits
      ensures Slid(old(bits[..]), bits[..], shift)
    {
      if shift >= WINDOW_BITS {
        ClearBits();
        return;
      }
      var wordShift, bitShift := shift / 64, shift % 64;
      ghost var was := bits[..];
      var i := WORDS - 1;
      if bitShift == 0 {
        while i >= 0
          invariant -1 <= i < WORDS
          invariant forall w :: 0 <= w <= i ==> bits[w] == was[w]
          invariant forall w :: i < w < WORDS ==> bits[w] == ShiftedWord(was, wordShift, 0, w)
        {
          bits[i] := if i - wordShift >= 0 then bits[i - wordShift] else 0;
          i := i - 1;
        }
      } else {
        while i >= 0
          invariant -1 <= i < WORDS
          invariant forall w :: 0 <= w <= i ==> bits[w] == was[w]
          invariant forall w :: i < w < WORDS ==> bits[w] == ShiftedWord(was, wordShift, bitShift, w)
        {
          var v := 0;
          var lo, hi := i - wordShift, i - wordShift - 1;
          if lo >= 0 { v := Or(v, Shl(64, bits[lo], bitShift)); }
          if hi >= 0 { v := Or(v, Shr(bits[hi], 64 - bitShift)); }
          ShiftedWordFits(was, wordShift, bitShift, i);
          bits[i] := v;
          i := i - 1;
        }
      }
      WordsSlid(was, bits[..], wordShift, bitShift);
    }
  }

  lemma OneBit(j: nat)
    ensures Bit(1, j) == (j == 0)
  {
    if j > 0 { BitOfZero(j - 1); }
  }

  // ---- What the in-place word loop leaves behind ----------------------------

  ghost function ShiftedWord(was: seq<Word64>, wordShift: nat, bitShift: nat, i: nat): nat
    requires |was| == WORDS && i < WORDS && bitShift < 64
  {
    var lo, hi := i - wordShift, i - wordShift - 1;
    if bitShift == 0 then (if lo >= 0 then was[lo] else 0)
    else
      var v := if lo >= 0 then Or(0, Shl(64, was[lo], bitShift)) else 0;
      if hi >= 0 then Or(v, Shr(was[hi], 64 - bitShift)) else v
  }

  lemma ShiftedWordFits(was: seq<Word64>, wordShift: nat, bitShift: nat, i: nat)
    requires |was| == WORDS && i < WORDS && bitShift < 64
    ensures ShiftedWord(was, wordShift, bitShift, i) < U64
  {
    WordSizes();
    var lo, hi := i - wordShift, i - wordShift - 1;
    if lo >= 0 { ShlBound(64, was[lo], bitShift); }
    if hi >= 0 {
      ShrBound(was[hi], 64 - bitShift);
      OrBound(Or(0, Shl(64, was[lo], bitShift)), Shr(was[hi], 64 - bitShift), 64);
    }
  }

  lemma WordsSlid(was: seq<Word64>, bits: seq<Word64>, wordShift: nat, bitShift: nat)
    requires |was| == |bits| == WORDS && bitShift < 64
    requires forall w :: 0 <= w < WORDS ==> bits[w] == ShiftedWord(was, wordShift, bitShift, w)
    ensures Slid(was, bits, 64 * wordShift + bitShift)
  {
    hide Bit, ShiftedWord;
    var shift := 64 * wordShift + bitShift;
    forall k: nat | k < WINDOW_BITS
      ensures MapBit(bits, k) <==> shift <= k && MapBit(was, k - shift)
    {
      ShiftedWordBit(was, wordShift, bitShift, k);
    }
  }

  /** Bit k after the slide is bit k - shift before it, across word boundaries. */
  lemma ShiftedWordBit(was: seq<Word64>, wordShift: nat, bitShift: nat, k: nat)
    requires |was| == WORDS && bitShift < 64 && k < WINDOW_BITS
    ensures var shift := 64 * wordShift + bitShift;
      Bit(ShiftedWord(was, wordShift, bitShift, k / 64), k % 64)
      <==> shift <= k && MapBit(was, k - shift)
  {
    var i, j := k / 64, k % 64;
    var lo, hi := i - wordShift, i - wordShift - 1;
    BitOfZero(j);
    if bitShift > 0 && lo >= 0 {
      BitShl(64, was[lo], bitShift, j);
      if bitShift <= j { assert (k - 64 * wordShift - bitShift) / 64 == lo; }
      if hi >= 0 {
        BitOr(Or(0, Shl(64, was[lo], bitShift)), Shr(was[hi], 64 - bitShift), j);
        BitShr(was[hi], 64 - bitShift, j);
        if j < bitShift {
          assert k - 64 * wordShift - bitShift == 64 * hi + (64 - bitShift + j);
        } else {
          WordSizes();
          BitAboveWidth(was[hi], 64, 64 - bitShift + j);
        }
      }
    }
  }

  // ---- Whole runs ----------------------------------------------------------

  lemma {:induction false} AcceptedOnlyGrows(calls: seq<nat>, i: nat, j: nat)
    requires i <= j <= |calls|
    ensures AcceptAll(calls[..i]) <= AcceptAll(calls[..j])
  {
    if i < j {
      AcceptedOnlyGrows(calls, i, j - 1);
      assert calls[..j][..j - 1] == calls[..j - 1];
    }
  }

  lemma AcceptedAfterCall(calls: seq<nat>, i: nat)
    requires i < |calls|
    ensures AcceptAll(calls[..i + 1]) == Accept(AcceptAll(calls[..i]), calls[i])
  {
    assert calls[..i + 1][..i] == calls[..i];
  }

  /** A number was accepted exactly when some call said yes to it. */
  lemma {:induction false} AcceptedHasVerdict(calls: seq<nat>, p: nat)
    ensures p in AcceptAll(calls) <==> exists i: nat :: i < |calls| && calls[i] == p && Verdict(calls, i)
  {
    if calls != [] {
      var n := |calls| - 1;
      AcceptedHasVerdict(calls[..n], p);
      forall i: nat | i < n ensures Verdict(calls[..n], i) == Verdict(calls, i) {
        assert calls[..n][..i] == calls[..i];
      }
      assert calls[n] == p && Verdict(calls, n) ==> p in AcceptAll(calls);
      if p in AcceptAll(calls[..n]) {
        var i: nat :| i < n && calls[..n][i] == p && Verdict(calls[..n], i);
        assert calls[i] == p && Verdict(calls, i);
      }
    }
  }

  /** Over any sequence of calls: no number is accepted twice, and a call is refused
      only for a number accepted earlier or 1024 or more behind an accepted one. */
  lemma ReplayRunTheorem(calls: seq<nat>, i: nat)
    requires i < |calls|
    ensures Verdict(calls, i) ==>
      forall j: nat :: j < |calls| && j != i && calls[j] == calls[i] ==> !Verdict(calls, j)
    ensures !Verdict(calls, i) ==>
      exists j: nat :: j < i && Verdict(calls, j) &&
        (calls[j] == calls[i] || calls[j] >= calls[i] + WINDOW_BITS)
  {
    if Verdict(calls, i) {
      forall j: nat | j < |calls| && j != i && calls[j] == calls[i] ensures !Verdict(calls, j) {
        var a, b := if i < j then i else j, if i < j then j else i;
        AcceptedAfterCall(calls, a);
        AcceptedOnlyGrows(calls, a + 1, b);
      }
    } else {
      var m :| m in AcceptAll(calls[..i]) && (m == calls[i] || m >= calls[i] + WINDOW_BITS);
      AcceptedHasVerdict(calls[..i], m);
      var j: nat :| j < i && calls[..i][j] == m && Verdict(calls[..i], j);
      assert calls[..i][..j] == calls[..j];
      assert Verdict(calls, j);
    }
  }

  /** Drives a fresh window through a run: its answers are the run's verdicts. */
  method RunWindow(calls: seq<Word64>) returns (verdicts: seq<bool>)
    ensures |verdicts| == |calls|
    ensures forall i: nat :: i < |calls| ==> verdicts[i] == Verdict(calls, i)
  {
    var w := new ReplayWindow();
    verdicts := [];
    for i := 0 to |calls|
      invariant w.Valid() && fresh(w) && fresh(w.bits)
      invariant |verdicts| == i && w.accepted == AcceptAll(calls[..i])
      invariant forall j: nat :: j < i ==> verdicts[j] == Verdict(calls, j)
    {
      AcceptedAfterCall(calls, i);
      var ok := w.CheckAndUpdate(calls[i]);
      verdicts := verdicts + [ok];
    }
    assert calls[..|calls|] == calls;
  }
}
