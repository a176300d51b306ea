// The motion matcher (matchesMotionCommand): an ordered list of directions,
// tolerant of extra inputs in between, ending with a button press, all
// inside a time window measured back from the newest buffered input.
module Motion {
  import opened Types

  /** `s` occurs in `t` in order, possibly with other elements in between:
      some strictly increasing list of positions of `t` spells out `s`.
      This is the reference definition the greedy scan is proved against. */
  ghost predicate Embeds<T>(s: seq<T>, t: seq<T>)
  {
    exists idx: seq<int> :: IsEmbedding(idx, s, t)
  }

  ghost predicate IsEmbedding<T>(idx: seq<int>, s: seq<T>, t: seq<T>)
  {
    && |idx| == |s|
    && (forall k :: 0 <= k < |idx| ==> 0 <= idx[k] < |t| && t[idx[k]] == s[k])
    && (forall i, j :: 0 <= i < j < |idx| ==> idx[i] < idx[j])
  }

  /** How far the greedy left-to-right scan of `t` gets through `s`: each
      element of `t` equal to the next expected element of `s` advances
      the pointer by one. Defined on the last element of `t`, so that a
      scan that has seen `t[..i]` has pointer GreedyCount(s, t[..i]). */
  function GreedyCount<T(==)>(s: seq<T>, t: seq<T>): (g: nat)
    ensures g <= |s|
  {
    if t == [] then 0
    else
      var g := GreedyCount(s, t[..|t| - 1]);
      if g < |s| && t[|t| - 1] == s[g] then g + 1 else g
  }

  /** The directions of a list of records, in order. */
  function Directions(rs: seq<InputRecord>): (ds: seq<Direction>)
    ensures |ds| == |rs|
    ensures forall k :: 0 <= k < |rs| ==> ds[k] == rs[k].direction
  {
    seq(|rs|, k requires 0 <= k < |rs| => rs[k].direction)
  }

  /** The records no more than `window` time units older than `now`
      (the test `now - t <= window` is inclusive), in their original order. */
  function Recent(inputs: seq<InputRecord>, now: int, window: int): (r: seq<InputRecord>)
    ensures |r| <= |inputs|
  {
    if inputs == [] then []
    else
      var last := inputs[|inputs| - 1];
      Recent(inputs[..|inputs| - 1], now, window) + (if now - last.timestamp <= window then [last] else [])
  }

  /** The filter keeps exactly the records inside the window. */
  lemma {:induction false} RecentMembers(inputs: seq<InputRecord>, now: int, window: int)
    ensures forall x :: x in Recent(inputs, now, window) <==> x in inputs && now - x.timestamp <= window
  {
    if inputs != [] {
      var init := inputs[..|inputs| - 1];
      RecentMembers(init, now, window);
      assert inputs == init + [inputs[|inputs| - 1]];
    }
  }

  /** The filter keeps the buffer's order: its result is a subsequence. */
  lemma {:induction false} RecentIsSubsequence(inputs: seq<InputRecord>, now: int, window: int)
    ensures Embeds(Recent(inputs, now, window), inputs)
  {
    if inputs == [] {
      assert IsEmbedding([], Recent(inputs, now, window), inputs);
    } else {
      var init := inputs[..|inputs| - 1];
      var last := inputs[|inputs| - 1];
      assert inputs == init + [last];
      RecentIsSubsequence(init, now, window);
      if now - last.timestamp <= window {
        EmbedsSnoc(Recent(init, now, window), init, last);
      } else {
        EmbedsExtendRight(Recent(init, now, window), init, last);
        assert Recent(inputs, now, window) == Recent(init, now, window);
      }
    }
  }

  /** The filter distributes over concatenation. */
  lemma {:induction false} RecentAppend(a: seq<InputRecord>, b: seq<InputRecord>, now: int, window: int)
    ensures Recent(a + b, now, window) == Recent(a, now, window) + Recent(b, now, window)
    decreases |b|
  {
    if b == [] {
      assert a + b == a;
    } else {
      var b' := b[..|b| - 1];
      var last := b[|b| - 1];
      var keep := if now - last.timestamp <= window then [last] else [];
      assert (a + b)[..|a + b| - 1] == a + b';
      assert (a + b)[|a + b| - 1] == last;
      assert Recent(a + b, now, window) == Recent(a + b', now, window) + keep;
      assert Recent(b, now, window) == Recent(b', now, window) + keep;
      RecentAppend(a, b', now, window);
    }
  }

  /** Filtering again with the same reference time and a window at least as
      wide changes nothing. */
  lemma {:induction false} RecentWiden(inputs: seq<InputRecord>, now: int, w1: int, w2: int)
    requires w1 <= w2
    ensures Recent(Recent(inputs, now, w1), now, w2) == Recent(inputs, now, w1)
  {
    if inputs != [] {
      var init := inputs[..|inputs| - 1];
      var last := inputs[|inputs| - 1];
      RecentWiden(init, now, w1, w2);
      var once := if now - last.timestamp <= w1 then [last] else [];
      RecentAppend(Recent(init, now, w1), once, now, w2);
      if once != [] {
        assert once[..0] == [];
      }
    }
  }

  /** Matching on a buffer already filtered to a window `w1` around its
      newest entry, with a window at least as wide, is matching the
      unfiltered buffer with `w1`. */
  lemma MatchAfterFilter(all: seq<InputRecord>, sequence: seq<Direction>, button: Button, w1: int, w2: int)
    requires all != [] && 0 <= w1 <= w2
    ensures MotionMatches(Recent(all, all[|all| - 1].timestamp, w1), sequence, button, w2)
        <==> MotionMatches(all, sequence, button, w1)
  {
    assert all == all[..|all| - 1] + [all[|all| - 1]];
    RecentWiden(all, all[|all| - 1].timestamp, w1, w2);
  }

  /** What matchesMotionCommand computes, written with the greedy scan. */
  predicate MotionMatches(inputs: seq<InputRecord>, sequence: seq<Direction>, button: Button, inputWindow: int)
  {
    && |inputs| > 0
    && WindowMatches(Recent(inputs, inputs[|inputs| - 1].timestamp, inputWindow), sequence, button)
  }

  /** The test applied to the windowed entries: at least |sequence| + 1 of
      them, the button on the newest, and the greedy scan of the others
      reaching the end of a non-empty `sequence`. */
  predicate WindowMatches(recent: seq<InputRecord>, sequence: seq<Direction>, button: Button)
  {
    && |recent| >= |sequence| + 1
    && Pressed(recent[|recent| - 1], button)
    && |sequence| > 0
    && GreedyCount(sequence, Directions(recent[..|recent| - 1])) == |sequence|
  }

  /** The meaning of a motion match, with the subsequence test stated by
      its reference definition rather than by the scan. */
  ghost predicate MotionSpec(inputs: seq<InputRecord>, sequence: seq<Direction>, button: Button, inputWindow: int)
  {
    && |inputs| > 0
    && var recent := Recent(inputs, inputs[|inputs| - 1].timestamp, inputWindow);
    && |recent| >= |sequence| + 1
    && Pressed(recent[|recent| - 1], button)
    && sequence != []
    && Embeds(sequence, Directions(recent[..|recent| - 1]))
  }

  // ---------------------------------------------------------------------
  // The greedy scan finds a subsequence exactly when one exists.
  // ---------------------------------------------------------------------

  lemma EmbedsExtendRight<T>(s: seq<T>, t: seq<T>, x: T)
    requires Embeds(s, t)
    ensures Embeds(s, t + [x])
  {
    var idx :| IsEmbedding(idx, s, t);
    assert IsEmbedding(idx, s, t + [x]);
  }

  lemma EmbedsSnoc<T>(s: seq<T>, t: seq<T>, x: T)
    requires Embeds(s, t)
    ensures Embeds(s + [x], t + [x])
  {
    var idx :| IsEmbedding(idx, s, t);
    assert IsEmbedding(idx + [|t|], s + [x], t + [x]);
  }

  /** The part of `s` the greedy scan consumes really occurs in `t`. */
  lemma {:induction false} GreedySound<T>(s: seq<T>, t: seq<T>)
    ensures Embeds(s[..GreedyCount(s, t)], t)
  {
    if t == [] {
      assert IsEmbedding([], s[..0], t);
    } else {
      var t' := t[..|t| - 1];
      var x := t[|t| - 1];
      assert t == t' + [x];
      var g' := GreedyCount(s, t');
      GreedySound(s, t');
      if g' < |s| && x == s[g'] {
        assert s[..g' + 1] == s[..g'] + [x];
        EmbedsSnoc(s[..g'], t', x);
      } else {
        EmbedsExtendRight(s[..g'], t', x);
      }
    }
  }

  /** Any prefix of `s` that occurs in `t` is consumed by the greedy scan. */
  lemma {:induction false} GreedyComplete<T>(s: seq<T>, t: seq<T>, k: nat)
    requires k <= |s| && Embeds(s[..k], t)
    ensures GreedyCount(s, t) >= k
    decreases |t|
  {
    if k == 0 {
      return;
    }
    var idx :| IsEmbedding(idx, s[..k], t);
    assert 0 <= idx[0] < |t|;
    var n := |t|;
    var t' := t[..n - 1];
    var g' := GreedyCount(s, t');
    if idx[k - 1] < n - 1 {
      assert IsEmbedding(idx, s[..k], t');
      GreedyComplete(s, t', k);
    } else {
      assert IsEmbedding(idx[..k - 1], s[..k - 1], t') by {
        forall i | 0 <= i < k - 1 ensures idx[i] < n - 1 {
          assert idx[i] < idx[k - 1];
        }
      }
      GreedyComplete(s, t', k - 1);
      if g' == k - 1 {
        assert t[n - 1] == s[k - 1];
      }
    }
  }

  /** The greedy scan reaches the end of `s` exactly when `s` occurs in `t`. */
  lemma GreedyIffEmbeds<T>(s: seq<T>, t: seq<T>)
    ensures GreedyCount(s, t) == |s| <==> Embeds(s, t)
  {
    assert s[..|s|] == s;
    if GreedyCount(s, t) == |s| {
      GreedySound(s, t);
    }
    if Embeds(s, t) {
      GreedyComplete(s, t, |s|);
    }
  }

  /** Scanning more input never moves the greedy pointer back. */
  lemma {:induction false} GreedyMonotone<T>(s: seq<T>, t: seq<T>, j: nat)
    requires j <= |t|
    ensures GreedyCount(s, t[..j]) <= GreedyCount(s, t)
    decreases |t| - j
  {
    if j == |t| {
      assert t[..j] == t;
    } else {
      GreedyMonotone(s, t[..|t| - 1], j);
      assert t[..|t| - 1][..j] == t[..j];
    }
  }


  /** The greedy-scan predicate and the reference definition agree. */
  lemma MotionMatchesMeaning(inputs: seq<InputRecord>, sequence: seq<Direction>, button: Button, inputWindow: int)
    ensures MotionMatches(inputs, sequence, button, inputWindow) <==> MotionSpec(inputs, sequence, button, inputWindow)
  {
    if |inputs| > 0 {
      var recent := Recent(inputs, inputs[|inputs| - 1].timestamp, inputWindow);
      if |recent| >= 1 {
        GreedyIffEmbeds(sequence, Directions(recent[..|recent| - 1]));
      }
    }
  }

  /** Every direction of a matched motion occurs in the buffer: a buffer
      that never holds some direction of the motion cannot match it. */
  lemma MatchNeedsEachDirection(inputs: seq<InputRecord>, sequence: seq<Direction>, button: Button, inputWindow: int, d: Direction)
    requires MotionMatches(inputs, sequence, button, inputWindow)
    requires d in sequence
    ensures exists x :: x in inputs && x.direction == d
  {
    MotionMatchesMeaning(inputs, sequence, button, inputWindow);
    var now := inputs[|inputs| - 1].timestamp;
    var recent := Recent(inputs, now, inputWindow);
    var idx :| IsEmbedding(idx, sequence, Directions(recent[..|recent| - 1]));
    var k :| 0 <= k < |sequence| && sequence[k] == d;
    var x := recent[idx[k]];
    RecentMembers(inputs, now, inputWindow);
    assert x in recent;
  }

  // ---------------------------------------------------------------------
  // The matcher itself.
  // ---------------------------------------------------------------------

  /** matchesMotionCommand: filter to the window of the newest input, demand
      |sequence| + 1 entries and the button on the last one, then scan the
      other entries for `sequence` in order. */
  method MatchesMotionCommand(inputs: seq<InputRecord>, sequence: seq<Direction>, button: Button, inputWindow: int)
    returns (matched: bool)
    ensures matched == MotionMatches(inputs, sequence, button, inputWindow)
  {
    if |inputs| == 0 {
      return false;
    }
    var now := inputs[|inputs| - 1].timestamp;
    var recentInputs := Recent(inputs, now, inputWindow);
    assert MotionMatches(inputs, sequence, button, inputWindow) == WindowMatches(recentInputs, sequence, button);
    if |recentInputs| < |sequence| + 1 {
      return false;
    }
    var lastInput := recentInputs[|recentInputs| - 1];
    var buttonPressed := if button == Punch then lastInput.punch else lastInput.kick;
    if !buttonPressed {
      return false;
    }
    var directionInputs := recentInputs[..|recentInputs| - 1];
    var seqIdx := 0;
    for i := 0 to |directionInputs|
      invariant seqIdx == GreedyCount(sequence, Directions(directionInputs[..i]))
      invariant seqIdx < |sequence| || sequence == []
    {
      assert Directions(directionInputs[..i + 1])[..i] == Directions(directionInputs[..i]);
      // Past the end of `sequence` the source compares with `undefined`,
      // which equals no direction.
      if seqIdx < |sequence| && directionInputs[i].direction == sequence[seqIdx] {
        seqIdx := seqIdx + 1;
        if seqIdx == |sequence| {
          var all := Directions(directionInputs);
          assert all[..i + 1] == Directions(directionInputs[..i + 1]);
          GreedyMonotone(sequence, all, i + 1);
          return true;
        }
      }
    }
    assert directionInputs[..|directionInputs|] == directionInputs;
    assert !WindowMatches(recentInputs, sequence, button);
    return false;
  }

  // ---------------------------------------------------------------------
  // Side symmetry: the 2P view of an input is its mirror image
  // ---------------------------------------------------------------------

  /** Mirroring both the sequence and the scanned directions leaves the
      greedy scan's progress unchanged. */
  lemma {:induction false} GreedyMirror(s: seq<Direction>, t: seq<Direction>)
    ensures GreedyCount(MirrorAll(s), MirrorAll(t)) == GreedyCount(s, t)
  {
    if t != [] {
      var init := t[..|t| - 1];
      assert MirrorAll(t)[..|t| - 1] == MirrorAll(init);
      GreedyMirror(s, init);
      var g := GreedyCount(s, init);
      assert MirrorAll(t)[|t| - 1] == Mirror(t[|t| - 1]);
      if g < |s| {
        assert MirrorAll(s)[g] == Mirror(s[g]);
        MirrorInjective(t[|t| - 1], s[g]);
      }
    }
  }

  /** The window filter commutes with mirroring. */
  lemma {:induction false} RecentMirror(inputs: seq<InputRecord>, now: int, window: int)
    ensures Recent(MirrorRecords(inputs), now, window) == MirrorRecords(Recent(inputs, now, window))
  {
    if inputs != [] {
      var init := inputs[..|inputs| - 1];
      var last := inputs[|inputs| - 1];
      assert MirrorRecords(inputs)[..|inputs| - 1] == MirrorRecords(init);
      RecentMirror(init, now, window);
      var r := Recent(init, now, window);
      if now - last.timestamp <= window {
        assert MirrorRecords(r + [last]) == MirrorRecords(r) + [MirrorRecord(last)];
      }
    }
  }

  lemma WindowMatchesMirrored(recent: seq<InputRecord>, sequence: seq<Direction>, button: Button)
    ensures WindowMatches(MirrorRecords(recent), MirrorAll(sequence), button) <==> WindowMatches(recent, sequence, button)
  {
    if |recent| > 0 {
      assert Directions(MirrorRecords(recent)[..|recent| - 1]) == MirrorAll(Directions(recent[..|recent| - 1]));
      GreedyMirror(sequence, Directions(recent[..|recent| - 1]));
    }
  }

  /** A motion command's mirrored sequence matches the mirrored inputs
      exactly when the sequence matches the inputs. */
  lemma MotionMatchesMirrored(inputs: seq<InputRecord>, sequence: seq<Direction>, button: Button, inputWindow: int)
    ensures MotionMatches(MirrorRecords(inputs), MirrorAll(sequence), button, inputWindow)
        <==> MotionMatches(inputs, sequence, button, inputWindow)
  {
    if |inputs| > 0 {
      var now := inputs[|inputs| - 1].timestamp;
      assert MirrorRecords(inputs)[|inputs| - 1].timestamp == now;
      RecentMirror(inputs, now, inputWindow);
      WindowMatchesMirrored(Recent(inputs, now, inputWindow), sequence, button);
    }
  }
}
