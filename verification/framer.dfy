/**
 The serial framer: one serial read buffer is cut at every `0xFF` terminator
 and the empty pieces are dropped (`split(|&e| e == 0xff)` followed by
 `filter(|v| !v.is_empty())` in the bridge loop). There is no carry-over
 between reads: the framer sees one buffer at a time.
 */
module Framer {
  import opened Bytes

  /** The byte that terminates each message on the serial line. */
  const Terminator: Byte := 0xFF

  /** Number of terminator bytes in `s`. */
  function Terminators(s: seq<Byte>): (n: nat)
  {
    if |s| == 0 then 0
    else Terminators(s[..|s| - 1]) + (if s[|s| - 1] == Terminator then 1 else 0)
  }

  /** `s` with every terminator byte removed, order kept. */
  function StripTerminators(s: seq<Byte>): (r: seq<Byte>)
  {
    if |s| == 0 then []
    else StripTerminators(s[..|s| - 1]) + (if s[|s| - 1] == Terminator then [] else [s[|s| - 1]])
  }

  /** Slice splitting on the terminator: the pieces between consecutive
      terminators, including the empty ones, one more piece than there are
      terminators. */
  function Split(s: seq<Byte>): (pieces: seq<seq<Byte>>)
    ensures |pieces| == Terminators(s) + 1
  {
    if |s| == 0 then [[]]
    else
      var pre := Split(s[..|s| - 1]);
      var b := s[|s| - 1];
      if b == Terminator then pre + [[]]
      else pre[..|pre| - 1] + [pre[|pre| - 1] + [b]]
  }

  /** The inverse of `Split`: the pieces put back together with a terminator
      between each two neighbours. */
  function Join(pieces: seq<seq<Byte>>): (s: seq<Byte>)
  {
    if |pieces| <= 1 then (if |pieces| == 0 then [] else pieces[0])
    else Join(pieces[..|pieces| - 1]) + [Terminator] + pieces[|pieces| - 1]
  }

  /** The cuts fall exactly at the terminators: rejoining the pieces with a
      terminator between neighbours gives back the input. */
  lemma {:induction false} JoinSplit(s: seq<Byte>)
    ensures Join(Split(s)) == s
  {
    if |s| > 0 {
      var init, b := s[..|s| - 1], s[|s| - 1];
      assert s == init + [b];
      JoinSplit(init);
      SplitSnoc(init, b);
      var pre := Split(init);
      var k := |pre| - 1;
      if b == Terminator {
        assert (pre + [[]])[..|pre|] == pre;
      } else {
        var post := pre[..k] + [pre[k] + [b]];
        assert post[..k] == pre[..k];
        if k > 0 {
          assert Join(pre) == Join(pre[..k]) + [Terminator] + pre[k];
        }
      }
    }
  }

  /** And no other cut fits: terminator-free pieces that rejoin to `s` are
      exactly the pieces of `s`. */
  lemma {:induction false} SplitUnique(pieces: seq<seq<Byte>>, s: seq<Byte>)
    requires |pieces| >= 1
    requires forall i :: 0 <= i < |pieces| ==> Terminator !in pieces[i]
    requires Join(pieces) == s
    ensures Split(s) == pieces
  {
    var k := |pieces| - 1;
    var init, last := pieces[..k], pieces[k];
    assert pieces == init + [last];
    if k == 0 {
      SplitWhole(s);
    } else {
      assert Split(Join(init)) == init by {
        forall i | 0 <= i < |init| ensures Terminator !in init[i] {
          assert init[i] == pieces[i];
        }
        SplitUnique(init, Join(init));
      }
      assert s == Join(init) + [Terminator] + last;
      SplitAfterTerminator(Join(init), last);
    }
  }

  /** A terminator-free buffer is a single piece. */
  lemma SplitWhole(s: seq<Byte>)
    requires Terminator !in s
    ensures Split(s) == [s]
  {
    SplitExtend([], s);
    assert [] + s == s;
  }

  /** A terminator followed by terminator-free bytes opens one new piece
      holding those bytes. */
  lemma SplitAfterTerminator(w: seq<Byte>, last: seq<Byte>)
    requires Terminator !in last
    ensures Split(w + [Terminator] + last) == Split(w) + [last]
  {
    var p := Split(w);
    SplitSnoc(w, Terminator);
    SplitExtend(w + [Terminator], last);
    assert (p + [[]])[..|p|] == p;
    assert [] + last == last;
  }

  /** Every piece is terminator-free and at most `n` bytes long. */
  predicate PiecesWithin(pieces: seq<seq<Byte>>, n: nat)
  {
    forall i :: 0 <= i < |pieces| ==> Terminator !in pieces[i] && |pieces[i]| <= n
  }

  lemma PiecesOpen(pieces: seq<seq<Byte>>, n: nat)
    requires PiecesWithin(pieces, n)
    ensures PiecesWithin(pieces + [[]], n + 1)
  {
    var q := pieces + [[]];
    forall i | 0 <= i < |q|
      ensures Terminator !in q[i] && |q[i]| <= n + 1
    {
      if i < |pieces| {
        assert q[i] == pieces[i];
      }
    }
  }

  lemma PiecesExtend(pieces: seq<seq<Byte>>, n: nat, b: Byte)
    requires |pieces| > 0 && PiecesWithin(pieces, n) && b != Terminator
    ensures var k := |pieces| - 1;
            PiecesWithin(pieces[..k] + [pieces[k] + [b]], n + 1)
  {
    var k := |pieces| - 1;
    var q := pieces[..k] + [pieces[k] + [b]];
    forall i | 0 <= i < |q|
      ensures Terminator !in q[i] && |q[i]| <= n + 1
    {
      if i < k {
        assert q[i] == pieces[i];
      } else {
        assert q[i] == pieces[k] + [b];
      }
    }
  }

  /** No piece contains a terminator or is longer than the input. */
  lemma {:induction false} SplitPieces(s: seq<Byte>)
    ensures PiecesWithin(Split(s), |s|)
  {
    if |s| > 0 {
      var init, b := s[..|s| - 1], s[|s| - 1];
      SplitPieces(init);
      assert s == init + [b];
      SplitSnoc(init, b);
      if b == Terminator {
        PiecesOpen(Split(init), |init|);
      } else {
        PiecesExtend(Split(init), |init|, b);
      }
    }
  }

  /** The non-empty pieces of `xs`, order kept. */
  function NonEmpty(xs: seq<seq<Byte>>): (ys: seq<seq<Byte>>)
    ensures |ys| <= |xs|
    ensures forall i :: 0 <= i < |ys| ==> ys[i] != []
  {
    if |xs| == 0 then []
    else
      var last := xs[|xs| - 1];
      var init := NonEmpty(xs[..|xs| - 1]);
      if last == [] then init else init + [last]
  }

  /** The filter only drops pieces: what it keeps comes from the input, and
      no byte is lost. */
  lemma {:induction false} NonEmptyKeeps(xs: seq<seq<Byte>>)
    ensures var ys := NonEmpty(xs);
            && (forall i :: 0 <= i < |ys| ==> ys[i] in xs)
            && Flatten(ys) == Flatten(xs)
  {
    if |xs| > 0 {
      var init, last := xs[..|xs| - 1], xs[|xs| - 1];
      NonEmptyKeeps(init);
      var pre := NonEmpty(init);
      assert Flatten(pre + [last]) == Flatten(pre) + last;
      assert forall y :: y in init ==> y in xs;
    }
  }

  /** Conversely, the filter drops nothing but empty pieces. */
  lemma {:induction false} NonEmptyComplete(xs: seq<seq<Byte>>)
    ensures forall x :: x in xs && x != [] ==> x in NonEmpty(xs)
  {
    if |xs| > 0 {
      var init, last := xs[..|xs| - 1], xs[|xs| - 1];
      NonEmptyComplete(init);
      assert xs == init + [last];
    }
  }

  /** A frame as it may appear on the serial line: non-empty, terminator-free. */
  predicate IsFrame(f: seq<Byte>)
  {
    f != [] && Terminator !in f
  }

  /** The frames of one serial read buffer. */
  function Frames(s: seq<Byte>): (frames: seq<seq<Byte>>)
  {
    NonEmpty(Split(s))
  }

  /** Every frame is a proper frame no longer than the read, and the frames
      together are the read without its terminators. */
  lemma FramesWellFormed(s: seq<Byte>)
    ensures var frames := Frames(s);
            && (forall i :: 0 <= i < |frames| ==> IsFrame(frames[i]) && |frames[i]| <= |s|)
            && Flatten(frames) == StripTerminators(s)
  {
    SplitPieces(s);
    NonEmptyKeeps(Split(s));
    FlattenSplit(s);
  }

  /** The serial wire form of a list of messages: each followed by one
      terminator. */
  function Serialize(frames: seq<seq<Byte>>): (wire: seq<Byte>)
  {
    if |frames| == 0 then []
    else Serialize(frames[..|frames| - 1]) + frames[|frames| - 1] + [Terminator]
  }

  lemma {:induction false} TerminatorsAppend(s: seq<Byte>, t: seq<Byte>)
    ensures Terminators(s + t) == Terminators(s) + Terminators(t)
  {
    if |t| == 0 {
      assert s + t == s;
    } else {
      assert (s + t)[..|s + t| - 1] == s + t[..|t| - 1];
      TerminatorsAppend(s, t[..|t| - 1]);
    }
  }

  lemma {:induction false} NoTerminators(s: seq<Byte>)
    requires Terminator !in s
    ensures Terminators(s) == 0
  {
    if |s| > 0 {
      NoTerminators(s[..|s| - 1]);
    }
  }

  /** Serialized messages carry one terminator each. */
  lemma {:induction false} TerminatorsSerialize(frames: seq<seq<Byte>>)
    requires forall i :: 0 <= i < |frames| ==> IsFrame(frames[i])
    ensures Terminators(Serialize(frames)) == |frames|
  {
    if |frames| > 0 {
      var init, last := frames[..|frames| - 1], frames[|frames| - 1];
      TerminatorsSerialize(init);
      NoTerminators(last);
      TerminatorsAppend(Serialize(init) + last, [Terminator]);
      TerminatorsAppend(Serialize(init), last);
      assert [Terminator][..0] == [];
    }
  }

  /** The pieces of `s` concatenate to `s` without its terminators. */
  lemma {:induction false} FlattenSplit(s: seq<Byte>)
    ensures Flatten(Split(s)) == StripTerminators(s)
  {
    if |s| > 0 {
      var init, b := s[..|s| - 1], s[|s| - 1];
      var pre := Split(init);
      FlattenSplit(init);
      if b == Terminator {
        assert Flatten(pre + [[]]) == Flatten(pre) + [];
      } else {
        var k := |pre| - 1;
        var post := pre[..k] + [pre[k] + [b]];
        assert post[..k] == pre[..k];
        assert Flatten(post) == Flatten(pre[..k]) + (pre[k] + [b]);
        assert Flatten(pre) == Flatten(pre[..k]) + pre[k];
      }
    }
  }

  /** Appending one byte either opens a new piece or extends the last one. */
  lemma SplitSnoc(s: seq<Byte>, b: Byte)
    ensures var p := Split(s);
            Split(s + [b]) == if b == Terminator then p + [[]] else p[..|p| - 1] + [p[|p| - 1] + [b]]
  {
    assert (s + [b])[..|s|] == s;
  }

  /** Appending terminator-free bytes extends the last piece and adds none. */
  lemma {:induction false} SplitExtend(x: seq<Byte>, y: seq<Byte>)
    requires Terminator !in y
    ensures var p := Split(x);
            Split(x + y) == p[..|p| - 1] + [p[|p| - 1] + y]
  {
    var p := Split(x);
    var k := |p| - 1;
    if |y| == 0 {
      assert x + y == x;
      assert p[k] + y == p[k];
      assert p[..k] + [p[k]] == p;
    } else {
      var init, b := y[..|y| - 1], y[|y| - 1];
      assert x + y == (x + init) + [b];
      SplitExtend(x, init);
      SplitSnoc(x + init, b);
      var pre := Split(x + init);
      assert pre[..k] == p[..k] && pre[k] == p[k] + init;
      assert p[k] + init + [b] == p[k] + y;
    }
  }

  lemma {:induction false} NonEmptyOfFrames(xs: seq<seq<Byte>>)
    requires forall i :: 0 <= i < |xs| ==> xs[i] != []
    ensures NonEmpty(xs) == xs
  {
    if |xs| > 0 {
      var init, last := xs[..|xs| - 1], xs[|xs| - 1];
      assert forall i :: 0 <= i < |init| ==> init[i] == xs[i];
      NonEmptyOfFrames(init);
      assert NonEmpty(xs) == NonEmpty(init) + [last];
      assert xs == init + [last];
    }
  }

  lemma NonEmptyOfNothing(xs: seq<seq<Byte>>)
    requires Flatten(xs) == []
    ensures NonEmpty(xs) == []
  {
    NonEmptyKeeps(xs);
  }

  lemma {:induction false} StripTerminatorsEmpty(s: seq<Byte>)
    ensures StripTerminators(s) == [] <==> forall i :: 0 <= i < |s| ==> s[i] == Terminator
  {
    if |s| > 0 {
      StripTerminatorsEmpty(s[..|s| - 1]);
    }
  }

  lemma {:induction false} SplitSerialize(frames: seq<seq<Byte>>)
    requires forall i :: 0 <= i < |frames| ==> IsFrame(frames[i])
    ensures Split(Serialize(frames)) == frames + [[]]
  {
    if |frames| > 0 {
      var init, last := frames[..|frames| - 1], frames[|frames| - 1];
      var w := Serialize(init);
      assert frames == init + [last];
      assert Split(w) == init + [[]] by {
        SplitSerialize(init);
      }
      assert Split(w + last) == init + [last] by {
        SplitExtend(w, last);
        assert [] + last == last;
      }
      SplitSnoc(w + last, Terminator);
    }
  }

  /** The framer takes no terminator-free buffer apart: a read holding one
      unterminated message yields exactly that message, and conversely. */
  lemma UnterminatedRead(s: seq<Byte>)
    ensures Frames(s) == [s] <==> IsFrame(s)
  {
    FramesWellFormed(s);
    if IsFrame(s) {
      SplitExtend([], s);
      assert [] + s == s;
      NonEmptyOfFrames([s]);
    }
  }

  /** A read yields no frame exactly when it is empty or all terminators. */
  lemma NoFrames(s: seq<Byte>)
    ensures Frames(s) == [] <==> forall i :: 0 <= i < |s| ==> s[i] == Terminator
  {
    StripTerminatorsEmpty(s);
    FlattenSplit(s);
    NonEmptyKeeps(Split(s));
    if StripTerminators(s) == [] {
      NonEmptyOfNothing(Split(s));
    }
  }

  /** Framing undoes serialization: a read holding whole messages, each with
      its terminator, yields exactly those messages in order. */
  lemma FramesSerialize(frames: seq<seq<Byte>>)
    requires forall i :: 0 <= i < |frames| ==> IsFrame(frames[i])
    ensures Frames(Serialize(frames)) == frames
    ensures |Frames(Serialize(frames))| == Terminators(Serialize(frames))
  {
    TerminatorsSerialize(frames);
    SplitSerialize(frames);
    NonEmptyOfFrames(frames);
    assert (frames + [[]])[..|frames|] == frames;
    assert NonEmpty(frames + [[]]) == NonEmpty(frames);
  }

  /** A read that ends in the middle of a message yields the whole messages
      and then the partial one as a frame of its own (no carry-over). */
  lemma {:induction false} FramesTrailingPartial(frames: seq<seq<Byte>>, partial: seq<Byte>)
    requires forall i :: 0 <= i < |frames| ==> IsFrame(frames[i])
    requires IsFrame(partial)
    ensures Frames(Serialize(frames) + partial) == frames + [partial]
  {
    SplitTrailingPartial(frames, partial);
    NonEmptyOfFrames(frames);
    NonEmptyAppend(frames, partial);
  }

  lemma {:induction false} SplitTrailingPartial(frames: seq<seq<Byte>>, partial: seq<Byte>)
    requires forall i :: 0 <= i < |frames| ==> IsFrame(frames[i])
    requires Terminator !in partial
    ensures Split(Serialize(frames) + partial) == frames + [partial]
  {
    var w := Serialize(frames);
    SplitSerialize(frames);
    var p := Split(w);
    assert p[..|p| - 1] == frames;
    assert p[|p| - 1] + partial == partial;
    SplitExtend(w, partial);
  }

  /** The filter works piece by piece, keeping order and multiplicity:
      filtering a concatenation concatenates the filtered parts. */
  lemma {:induction false} NonEmptyConcat(xs: seq<seq<Byte>>, ys: seq<seq<Byte>>)
    ensures NonEmpty(xs + ys) == NonEmpty(xs) + NonEmpty(ys)
  {
    if |ys| == 0 {
      assert xs + ys == xs;
    } else {
      var init, last := ys[..|ys| - 1], ys[|ys| - 1];
      NonEmptyConcat(xs, init);
      assert (xs + ys)[..|xs + ys| - 1] == xs + init;
    }
  }

  /** A single piece survives the filter exactly when it is non-empty. */
  lemma NonEmptySingle(x: seq<Byte>)
    ensures NonEmpty([x]) == if x == [] then [] else [x]
  {
    assert [x][..0] == [];
  }

  lemma NonEmptyAppend(xs: seq<seq<Byte>>, f: seq<Byte>)
    requires f != []
    ensures NonEmpty(xs + [f]) == NonEmpty(xs) + [f]
  {
    assert (xs + [f])[..|xs|] == xs;
  }

  /** The splitting loop: scans the read buffer once, closing a frame at
      every terminator that follows at least one byte. */
  method SplitFrames(s: seq<Byte>) returns (frames: seq<seq<Byte>>)
    ensures frames == Frames(s)
  {
    frames := [];
    var current: seq<Byte> := [];
    var i := 0;
    while i < |s|
      invariant 0 <= i <= |s|
      invariant var p := Split(s[..i]);
                frames == NonEmpty(p[..|p| - 1]) && current == p[|p| - 1]
    {
      var p := Split(s[..i]);
      assert s[..i + 1][..i] == s[..i];
      if s[i] == Terminator {
        assert (p + [[]])[..|p|] == p;
        assert p[..|p| - 1] + [p[|p| - 1]] == p;
        if current != [] {
          frames := frames + [current];
        }
        current := [];
      } else {
        current := current + [s[i]];
      }
      i := i + 1;
    }
    assert s[..i] == s;
    var p := Split(s);
    assert p[..|p| - 1] + [p[|p| - 1]] == p;
    if current != [] {
      frames := frames + [current];
    }
  }
}
