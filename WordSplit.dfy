/** The reference meaning of splitting a line into words on single spaces, as
    the shell does it: every space ends one word and starts the next, so runs
    of spaces are not collapsed and produce empty words. */
module WordSplit {
  import opened CStrings

  /** The words of `t` separated by `' '`, empty words included.  Defined by
      extending the line one byte at a time: a space opens a new, empty word,
      any other byte is appended to the last word. */
  function Split(t: seq<byte>): (ws: seq<seq<byte>>)
    ensures |ws| >= 1
    ensures forall k :: 0 <= k < |ws| ==> SP !in ws[k]
  {
    if t == [] then [[]]
    else
      var init, c := t[..|t| - 1], t[|t| - 1];
      assert t == init + [c];
      var ws := Split(init);
      if c == SP then ws + [[]]
      else ws[..|ws| - 1] + [ws[|ws| - 1] + [c]]
  }

  /** The words `ws` written out with one `' '` between neighbours. */
  function Join(ws: seq<seq<byte>>): seq<byte>
  {
    if |ws| <= 1 then (if ws == [] then [] else ws[0])
    else Join(ws[..|ws| - 1]) + [SP] + ws[|ws| - 1]
  }

  /** One step of `Split`: the line extended by the byte `c`. */
  lemma SplitSnoc(t: seq<byte>, c: byte)
    ensures var ws := Split(t);
      Split(t + [c]) == if c == SP then ws + [[]] else ws[..|ws| - 1] + [ws[|ws| - 1] + [c]]
  {
    assert (t + [c])[..|t|] == t;
  }

  /** One step of `Join`: a word added after at least one other. */
  lemma JoinSnoc(init: seq<seq<byte>>, w: seq<byte>)
    requires init != []
    ensures Join(init + [w]) == Join(init) + [SP] + w
  {
    assert (init + [w])[..|init|] == init;
  }

  /** Appending to the last word appends to the joined line. */
  lemma JoinExtendLast(init: seq<seq<byte>>, w: seq<byte>, u: seq<byte>)
    ensures Join(init + [w + u]) == Join(init + [w]) + u
  {
    if init != [] {
      JoinSnoc(init, w + u);
      JoinSnoc(init, w);
    }
  }

  /** Joining the words of a line gives the line back. */
  lemma {:induction false} JoinSplit(t: seq<byte>)
    ensures Join(Split(t)) == t
  {
    if t != [] {
      var init, c := t[..|t| - 1], t[|t| - 1];
      assert t == init + [c];
      var ws := Split(init);
      JoinSplit(init);
      SplitSnoc(init, c);
      if c == SP {
        assert (ws + [[]])[..|ws|] == ws;
      } else {
        var m := |ws|;
        assert ws == ws[..m - 1] + [ws[m - 1]];
        JoinExtendLast(ws[..m - 1], ws[m - 1], [c]);
      }
    }
  }

  /** Extending the last word of `a + b` extends the last word of `b`. */
  lemma ExtendLastConcat(a: seq<seq<byte>>, b: seq<seq<byte>>, c: byte)
    requires b != []
    ensures var ab := a + b;
      ab[..|ab| - 1] + [ab[|ab| - 1] + [c]] == a + (b[..|b| - 1] + [b[|b| - 1] + [c]])
  {
    var ab := a + b;
    assert ab[..|ab| - 1] == a + b[..|b| - 1];
  }

  /** A space splits the line into the words before it and the words after it. */
  lemma {:induction false} SplitAtSpace(x: seq<byte>, u: seq<byte>)
    ensures Split(x + [SP] + u) == Split(x) + Split(u)
  {
    if u == [] {
      assert x + [SP] + u == x + [SP];
      SplitSnoc(x, SP);
    } else {
      var u0, c := u[..|u| - 1], u[|u| - 1];
      assert u == u0 + [c];
      assert x + [SP] + u == (x + [SP] + u0) + [c];
      SplitAtSpace(x, u0);
      SplitAtSpaceSnoc(x, u0, c);
    }
  }

  /** The inductive step of `SplitAtSpace`. */
  lemma SplitAtSpaceSnoc(x: seq<byte>, u0: seq<byte>, c: byte)
    requires Split(x + [SP] + u0) == Split(x) + Split(u0)
    ensures Split(x + [SP] + u0 + [c]) == Split(x) + Split(u0 + [c])
  {
    SplitSnoc(x + [SP] + u0, c);
    SplitSnoc(u0, c);
    if c != SP {
      ExtendLastConcat(Split(x), Split(u0), c);
    }
  }

  /** Two spaces in a row put an empty word between them. */
  lemma DoubleSpace(x: seq<byte>, u: seq<byte>)
    ensures Split(x + [SP, SP] + u) == Split(x) + [[]] + Split(u)
  {
    assert x + [SP, SP] + u == x + [SP] + ([SP] + u);
    assert [SP] + u == [] + [SP] + u;
    SplitAtSpace(x, [SP] + u);
    SplitAtSpace([], u);
  }

  /** A line without spaces is a single word. */
  lemma {:induction false} SplitNoSpace(w: seq<byte>)
    requires SP !in w
    ensures Split(w) == [w]
  {
    if w != [] {
      var init := w[..|w| - 1];
      assert w == init + [w[|w| - 1]];
      SplitNoSpace(init);
    }
  }

  /** Splitting undoes joining, for at least one word and no word holding a
      space. */
  lemma {:induction false} SplitJoin(ws: seq<seq<byte>>)
    requires ws != []
    requires forall k :: 0 <= k < |ws| ==> SP !in ws[k]
    ensures Split(Join(ws)) == ws
  {
    var w := ws[|ws| - 1];
    SplitNoSpace(w);
    if |ws| > 1 {
      var init := ws[..|ws| - 1];
      SplitJoin(init);
      SplitAtSpace(Join(init), w);
      assert ws == init + [w];
    }
  }

  /** Where each word starts: offset 0, and the offset just past every space.
      These are the values the splitter stores into `words[]`. */
  function Starts(t: seq<byte>): (st: seq<nat>)
    ensures |st| >= 1 && st[0] == 0
    ensures forall k :: 0 < k < |st| ==> 0 < st[k] <= |t|
  {
    if t == [] then [0]
    else
      var init, c := t[..|t| - 1], t[|t| - 1];
      assert t == init + [c];
      var st := Starts(init);
      if c == SP then st + [|t|] else st
  }

  /** The offset just past the end of word `k`: the space that ends it, or the
      end of the line for the last word. */
  function WordEnd(t: seq<byte>, k: nat): nat
    requires k < |Starts(t)|
  {
    if k + 1 < |Starts(t)| then Starts(t)[k + 1] - 1 else |t|
  }

  /** One step of `Starts`: the line extended by the byte `c`. */
  lemma StartsSnoc(t: seq<byte>, c: byte)
    ensures Starts(t + [c]) == if c == SP then Starts(t) + [|t| + 1] else Starts(t)
  {
    assert (t + [c])[..|t|] == t;
  }

  /** There is one word per space, plus one, and one start per word. */
  lemma {:induction false} WordCount(t: seq<byte>)
    ensures |Split(t)| == |Starts(t)| == multiset(t)[SP] + 1
  {
    if t != [] {
      var init, c := t[..|t| - 1], t[|t| - 1];
      assert t == init + [c];
      WordCount(init);
      SplitSnoc(init, c);
      StartsSnoc(init, c);
    }
  }

  /** Word `k` of the split is the slice of the line from its start to its end,
      so `Starts` and `Split` describe the same words. */
  lemma {:induction false} WordAt(t: seq<byte>, k: nat)
    requires k < |Starts(t)|
    ensures |Split(t)| == |Starts(t)|
    ensures Starts(t)[k] <= WordEnd(t, k) <= |t|
    ensures Split(t)[k] == t[Starts(t)[k]..WordEnd(t, k)]
  {
    WordCount(t);
    if t != [] {
      var init, c := t[..|t| - 1], t[|t| - 1];
      assert t == init + [c];
      WordCount(init);
      if k < |Starts(init)| {
        WordAt(init, k);
      }
      WordAtSnoc(init, c, k);
    }
  }

  /** The inductive step of `WordAt`: from the words of `init` to those of
      `init + [c]`. */
  lemma WordAtSnoc(init: seq<byte>, c: byte, k: nat)
    requires k < |Starts(init + [c])|
    requires |Split(init)| == |Starts(init)|
    requires k < |Starts(init)| ==>
      Starts(init)[k] <= WordEnd(init, k) <= |init| &&
      Split(init)[k] == init[Starts(init)[k]..WordEnd(init, k)]
    ensures |Split(init + [c])| == |Starts(init + [c])|
    ensures Starts(init + [c])[k] <= WordEnd(init + [c], k) <= |init| + 1
    ensures Split(init + [c])[k] == (init + [c])[Starts(init + [c])[k]..WordEnd(init + [c], k)]
  {
    if k == |Starts(init)| {
      WordOpened(init, c);
    } else if c == SP || k + 1 < |Starts(init)| {
      WordKept(init, c, k);
    } else {
      WordExtended(init, c, k);
    }
  }

  /** A space opens a new, empty word at the end of the line. */
  lemma WordOpened(init: seq<byte>, c: byte)
    requires |Split(init)| == |Starts(init)| < |Starts(init + [c])|
    ensures |Split(init + [c])| == |Starts(init + [c])| == |Starts(init)| + 1
    ensures Starts(init + [c])[|Starts(init)|] == WordEnd(init + [c], |Starts(init)|) == |init| + 1
    ensures Split(init + [c])[|Starts(init)|] == []
  {
    SplitSnoc(init, c);
    StartsSnoc(init, c);
  }

  /** A word of `init` that is not the last, or any word when `c` is a space,
      is a word of `init + [c]` at the same place. */
  lemma WordKept(init: seq<byte>, c: byte, k: nat)
    requires k < |Starts(init)| == |Split(init)|
    requires c == SP || k + 1 < |Starts(init)|
    requires Starts(init)[k] <= WordEnd(init, k) <= |init|
    requires Split(init)[k] == init[Starts(init)[k]..WordEnd(init, k)]
    ensures |Split(init + [c])| == |Starts(init + [c])| > k
    ensures Starts(init + [c])[k] <= WordEnd(init + [c], k) <= |init|
    ensures Split(init + [c])[k] == (init + [c])[Starts(init + [c])[k]..WordEnd(init + [c], k)]
  {
    SplitSnoc(init, c);
    StartsSnoc(init, c);
    var t, ws := init + [c], Split(init);
    var b, e := Starts(init)[k], WordEnd(init, k);
    if c == SP {
      assert Starts(t) == Starts(init) + [|t|];
      assert Split(t) == ws + [[]];
    } else {
      assert Starts(t) == Starts(init);
      assert Split(t)[k] == ws[k];
    }
    assert WordEnd(t, k) == e;
    assert init[b..e] == t[b..e];
  }

  /** A byte other than a space extends the last word. */
  lemma WordExtended(init: seq<byte>, c: byte, k: nat)
    requires k + 1 == |Starts(init)| == |Split(init)|
    requires c != SP
    requires Starts(init)[k] <= WordEnd(init, k) <= |init|
    requires Split(init)[k] == init[Starts(init)[k]..WordEnd(init, k)]
    ensures |Split(init + [c])| == |Starts(init + [c])| > k
    ensures Starts(init + [c])[k] <= WordEnd(init + [c], k) == |init| + 1
    ensures Split(init + [c])[k] == (init + [c])[Starts(init + [c])[k]..WordEnd(init + [c], k)]
  {
    var t, ws := init + [c], Split(init);
    var b := Starts(init)[k];
    assert Starts(t) == Starts(init) by { StartsSnoc(init, c); }
    assert |Split(t)| == |ws| && Split(t)[k] == ws[k] + [c] by { SplitSnoc(init, c); }
    assert WordEnd(init, k) == |init| && WordEnd(t, k) == |t|;
    assert t[b..|t|] == init[b..|init|] + [c];
  }

  /** Every start after the first sits just past a space. */
  lemma {:induction false} StartsAfterSpace(t: seq<byte>, k: nat)
    requires 0 < k < |Starts(t)|
    ensures t[Starts(t)[k] - 1] == SP
  {
    var init, c := t[..|t| - 1], t[|t| - 1];
    assert t == init + [c];
    StartsSnoc(init, c);
    if k < |Starts(init)| {
      StartsAfterSpace(init, k);
    }
  }

  /** Word starts are strictly increasing. */
  lemma {:induction false} StartsIncreasing(t: seq<byte>, k: nat, l: nat)
    requires k < l < |Starts(t)|
    ensures Starts(t)[k] < Starts(t)[l]
  {
    var init, c := t[..|t| - 1], t[|t| - 1];
    assert t == init + [c];
    StartsSnoc(init, c);
    if l < |Starts(init)| {
      StartsIncreasing(init, k, l);
    }
  }
}
