/** The word splitter of the `argv` shell (argv-shell.c): each line returned by
    `getline` has its last byte overwritten with NUL, and is then cut in place
    at every space into the NULL-terminated vector `words` that `execv` takes
    as the new program's `argv`. */
module ArgvShell {
  import opened CStrings
  import opened WordSplit

  /** The number of slots in `char *words[256]`. */
  const WordSlots: nat := 256

  /** The buffer once `line[n - 1] = '\0'` has run. */
  function Terminated(s: seq<byte>, n: nat): seq<byte>
    requires 0 < n <= |s|
  {
    s[n - 1 := NUL]
  }

  /** The text the splitter walks: the C string at the start of the buffer
      once its byte `n - 1` is NUL.  It is the first `n - 1` bytes read, cut
      short by any NUL byte among them. */
  function Line(s: seq<byte>, n: nat): (t: seq<byte>)
    requires 0 < n <= |s|
    ensures |t| < n && t == s[..|t|]
    ensures NUL !in t
    ensures |t| == n - 1 || s[|t|] == NUL
  {
    var t := CStringAt(Terminated(s, n), 0);
    CStringBefore(Terminated(s, n), 0, n - 1);
    assert Terminated(s, n)[..|t|] == s[..|t|];
    t
  }

  /** Byte `j` of the buffer after the split: NUL at `n - 1` and at every
      space of the line, the byte read everywhere else. */
  function BlankedAt(s: seq<byte>, n: nat, j: nat): byte
    requires 0 < n <= |s| && j < |s|
  {
    if j == n - 1 || (j < |Line(s, n)| && s[j] == SP) then NUL else s[j]
  }

  /** The whole buffer after the split. */
  function Blanked(s: seq<byte>, n: nat): (b: seq<byte>)
    requires 0 < n <= |s|
    ensures |b| == |s|
    ensures forall j :: 0 <= j < |s| ==> b[j] == BlankedAt(s, n, j)
  {
    seq(|s|, j requires 0 <= j < |s| => BlankedAt(s, n, j))
  }

  /** Pointers to the given offsets of the buffer. */
  function Ptrs(st: seq<nat>): (ps: seq<Ptr>)
    ensures |ps| == |st|
    ensures forall k :: 0 <= k < |st| ==> ps[k] == At(st[k])
  {
    seq(|st|, k requires 0 <= k < |st| => At(st[k]))
  }

  /** One more offset adds one more pointer. */
  lemma PtrsSnoc(st: seq<nat>, k: nat)
    requires k < |st|
    ensures Ptrs(st[..k + 1]) == Ptrs(st[..k]) + [At(st[k])]
  {
  }

  /** The pointers the splitter stores into `words`: one per word start, then
      the `NULL` that ends the vector. */
  function Argv(s: seq<byte>, n: nat): seq<Ptr>
    requires 0 < n <= |s|
  {
    Ptrs(Starts(Line(s, n))) + [Null]
  }

  /** The buffer `b` is split up to offset `q` of the line: bytes before `q`,
      and from the line's end on, are as `Blanked` has them; the rest of the
      line is still as read. */
  ghost predicate SplitUpTo(b: seq<byte>, s: seq<byte>, n: nat, q: nat)
    requires 0 < n <= |s|
  {
    |b| == |s| &&
    forall j :: 0 <= j < |b| ==> b[j] == if q <= j < |Line(s, n)| then s[j] else BlankedAt(s, n, j)
  }

  /** Cutting at the next space `p` of the line extends the split part past it. */
  lemma SplitStep(b: seq<byte>, s: seq<byte>, n: nat, q: nat, p: nat)
    requires 0 < n <= |s| && SplitUpTo(b, s, n, q)
    requires q <= p < |Line(s, n)| && Line(s, n)[p] == SP
    requires forall j :: q <= j < p ==> Line(s, n)[j] != SP
    ensures SplitUpTo(b[p := NUL], s, n, p + 1)
  {
  }

  /** The strings `execv` reads through `words[0]`, `words[1]`, ... up to the
      `NULL`: the C string at each word start of the split buffer. */
  function ArgvStrings(s: seq<byte>, n: nat): seq<seq<byte>>
    requires 0 < n <= |s|
  {
    var st := Starts(Line(s, n));
    seq(|st|, k requires 0 <= k < |st| => CStringAt(Blanked(s, n), st[k]))
  }

  /** The word `k` of the line holds no space and, unless it is the last,
      ends at the space that opens word `k + 1`. */
  lemma WordGap(t: seq<byte>, k: nat)
    requires k < |Starts(t)|
    ensures Starts(t)[k] <= WordEnd(t, k) <= |t|
    ensures forall j :: Starts(t)[k] <= j < WordEnd(t, k) ==> t[j] != SP
    ensures k + 1 < |Starts(t)| ==> WordEnd(t, k) < |t| && t[WordEnd(t, k)] == SP
  {
    WordAt(t, k);
    var w := Split(t)[k];
    assert forall j :: Starts(t)[k] <= j < WordEnd(t, k) ==> t[j] == w[j - Starts(t)[k]];
    if k + 1 < |Starts(t)| {
      StartsAfterSpace(t, k + 1);
    }
  }

  /** What the `i`-th `strchr` of the loop returns: the space just before
      word `i`, or `NULL` once every word start is known. */
  function SpaceBefore(t: seq<byte>, i: nat): (r: Ptr)
    requires 1 <= i
    ensures r.At? <==> i < |Starts(t)|
  {
    if i < |Starts(t)| then At(Starts(t)[i] - 1) else Null
  }

  /** What `strchr` finds from `q` in a buffer split up to `q`: the next space
      of the line, or `NULL` when the line has no more. */
  lemma ScanLine(b: seq<byte>, s: seq<byte>, n: nat, q: nat, r: Ptr)
    requires 0 < n <= |s| && q <= |Line(s, n)| && SplitUpTo(b, s, n, q)
    requires IsStrChr(b, q, SP, r)
    ensures r.At? ==> r.offset < |Line(s, n)| && Line(s, n)[r.offset] == SP
    ensures r.At? ==> forall j :: q <= j < r.offset ==> Line(s, n)[j] != SP
    ensures r.Null? ==> forall j :: q <= j < |Line(s, n)| ==> Line(s, n)[j] != SP
  {
    var t := Line(s, n);
    assert b[|t|] == NUL;
    assert b[q..|t|] == t[q..];
    CStringUpTo(b, q, |t|);
    if r.At? {
      assert forall j :: q <= j < r.offset ==> t[j] == b[q..r.offset][j - q];
    } else {
      assert forall j :: q <= j < |t| ==> t[j] == b[q..|t|][j - q];
    }
  }

  /** Scanning a buffer split up to the start of word `i - 1` finds the space
      before word `i`. */
  lemma ScanFinds(b: seq<byte>, s: seq<byte>, n: nat, i: nat, r: Ptr)
    requires 0 < n <= |s| && 1 <= i <= |Starts(Line(s, n))|
    requires SplitUpTo(b, s, n, Starts(Line(s, n))[i - 1])
    requires IsStrChr(b, Starts(Line(s, n))[i - 1], SP, r)
    ensures r == SpaceBefore(Line(s, n), i)
  {
    var t := Line(s, n);
    ScanLine(b, s, n, Starts(t)[i - 1], r);
    WordGap(t, i - 1);
  }

  /** The state of `SplitWords` at the test of its loop, `i` being the loop
      counter: the buffer `b` is split up to the start of word `i - 1`,
      `w[..i]` points at the first `i` word starts, `w[i]` holds what the
      last `strchr` returned, and the later slots are as they were. */
  ghost predicate Splitting(b: seq<byte>, w: seq<Ptr>, s: seq<byte>, n: nat,
                            before: seq<Ptr>, i: nat)
    requires 0 < n <= |s|
  {
    var st := Starts(Line(s, n));
    1 <= i <= |st| < |w| == |before| && SplitUpTo(b, s, n, st[i - 1]) &&
    w[..i] == Ptrs(st[..i]) && w[i] == SpaceBefore(Line(s, n), i) &&
    w[i + 1..] == before[i + 1..]
  }

  /** The state before the loop: byte `n - 1` erased, `words[0]` at the start
      of the buffer and `words[1]` the first `strchr`. */
  lemma Begin(s: seq<byte>, n: nat, before: seq<Ptr>, r: Ptr, b: seq<byte>, w: seq<Ptr>)
    requires 0 < n <= |s| && |Starts(Line(s, n))| < |before|
    requires b == s[n - 1 := NUL] && w == before[0 := At(0)][1 := r]
    requires IsStrChr(b, 0, SP, r)
    ensures Splitting(b, w, s, n, before, 1)
  {
    var st := Starts(Line(s, n));
    assert SplitUpTo(b, s, n, 0);
    ScanFinds(b, s, n, 1, r);
    assert w[..1] == Ptrs(st[..1]);
  }

  /** One turn of the loop: `*(words[i]++) = '\0'` cuts the line at the space
      before word `i` and points `words[i]` at the word, and the next
      `strchr` finds the space before word `i + 1`. */
  lemma Step(b: seq<byte>, w: seq<Ptr>, s: seq<byte>, n: nat, before: seq<Ptr>,
             i: nat, r: Ptr, b': seq<byte>, w': seq<Ptr>)
    requires 0 < n <= |s| && Splitting(b, w, s, n, before, i)
    requires i < |Starts(Line(s, n))|
    requires b' == b[Starts(Line(s, n))[i] - 1 := NUL]
    requires w' == w[i := At(Starts(Line(s, n))[i])][i + 1 := r]
    requires IsStrChr(b', Starts(Line(s, n))[i], SP, r)
    ensures Splitting(b', w', s, n, before, i + 1)
  {
    var t := Line(s, n);
    var st := Starts(t);
    WordGap(t, i - 1);
    SplitStep(b, s, n, st[i - 1], st[i] - 1);
    ScanFinds(b', s, n, i + 1, r);
    PtrsSnoc(st, i);
    assert w'[..i + 1] == w[..i] + [At(st[i])];
    assert w'[i + 2..] == before[i + 2..] by {
      assert w'[i + 2..] == w[i + 1..][1..];
      assert before[i + 2..] == before[i + 1..][1..];
    }
  }

  /** The state after the loop: `strchr` found no more spaces, so the buffer
      is fully split and the vector is complete and `NULL`-terminated. */
  lemma Finish(b: seq<byte>, w: seq<Ptr>, s: seq<byte>, n: nat, before: seq<Ptr>, i: nat)
    requires 0 < n <= |s| && Splitting(b, w, s, n, before, i) && w[i].Null?
    ensures b == Blanked(s, n)
    ensures i + 1 == |Argv(s, n)| <= |w|
    ensures w[..|Argv(s, n)|] == Argv(s, n)
    ensures w[|Argv(s, n)|..] == before[|Argv(s, n)|..]
  {
    var t := Line(s, n);
    var st := Starts(t);
    WordGap(t, i - 1);
    assert forall j :: st[i - 1] <= j < |t| ==> s[j] == t[j] != SP;
    assert st[..i] == st;
    assert w[..i + 1] == w[..i] + [Null];
  }

  /** One turn of the loop `for (...; words[i] = strchr(words[i - 1], ' ');
      ++i) *(words[i]++) = '\0';`: cut the line at the space `words[i]`
      points to, move `words[i]` past it, and store the next `strchr` in
      `words[i + 1]`. */
  method CutOnce(line: array<byte>, words: array<Ptr>, i: nat,
                 ghost s: seq<byte>, ghost n: nat, ghost before: seq<Ptr>)
    requires 0 < n <= |s|
    requires Splitting(line[..], words[..], s, n, before, i) && words[i].At?
    modifies line, words
    ensures Splitting(line[..], words[..], s, n, before, i + 1)
  {
    ghost var b0, w0, e := line[..], words[..], |Line(s, n)|;
    var p := words[i].offset;
    assert line[e] == NUL;
    line[p] := NUL;
    assert line[..] == b0[p := NUL] && line[p + 1..][e - (p + 1)] == NUL;
    words[i] := At(p + 1);
    words[i + 1] := StrChr(line, words[i].offset, SP);
    assert words[..] == w0[i := At(p + 1)][i + 1 := words[i + 1]];
    Step(b0, w0, s, n, before, i, words[i + 1], line[..], words[..]);
  }

  /** The whole loop, from the state its first test sees to the `NULL` that
      `strchr` returns once no space is left; `i` ends as the number of
      words, the index of that `NULL`. */
  method CutAtSpaces(line: array<byte>, words: array<Ptr>, i0: nat,
                     ghost s: seq<byte>, ghost n: nat, ghost before: seq<Ptr>)
      returns (i: nat)
    requires 0 < n <= |s|
    requires Splitting(line[..], words[..], s, n, before, i0)
    modifies line, words
    ensures line[..] == Blanked(s, n)
    ensures i + 1 == |Argv(s, n)| <= words.Length
    ensures words[..|Argv(s, n)|] == Argv(s, n)
    ensures words[|Argv(s, n)|..] == before[|Argv(s, n)|..]
  {
    i := i0;
    while words[i].At?
      invariant Splitting(line[..], words[..], s, n, before, i)
      decreases |Starts(Line(s, n))| - i
    {
      CutOnce(line, words, i, s, n, before);
      i := i + 1;
    }
    Finish(line[..], words[..], s, n, before, i);
  }

  /** The splitter of argv-shell.c: `line[n - 1] = '\0'`, `words[0] = line`,
      the first `strchr`, then the loop.  `line` is the `getline` buffer
      holding the `n` bytes read; `words` is the fixed vector of 256 slots,
      which the source never checks, so the line may hold at most 254 spaces. */
  method SplitWords(line: array<byte>, n: nat, words: array<Ptr>)
    requires 0 < n <= line.Length
    requires words.Length == WordSlots
    requires multiset(Line(line[..], n))[SP] < WordSlots - 1
    modifies line, words
    ensures line[..] == Blanked(old(line[..]), n)
    ensures |Argv(old(line[..]), n)| <= WordSlots
    ensures words[..|Argv(old(line[..]), n)|] == Argv(old(line[..]), n)
    ensures words[|Argv(old(line[..]), n)|..] == old(words[..])[|Argv(old(line[..]), n)|..]
  {
    ghost var s, before := line[..], words[..];
    assert |Starts(Line(s, n))| < WordSlots by { WordCount(Line(s, n)); }

    line[n - 1] := NUL;
    assert line[..] == s[n - 1 := NUL] && line[0..][n - 1] == NUL;
    words[0] := At(0);
    words[1] := StrChr(line, words[0].offset, SP);
    assert words[..] == before[0 := At(0)][1 := words[1]];
    Begin(s, n, before, words[1], line[..], words[..]);
    var i := CutAtSpaces(line, words, 1, s, n, before);
  }

  /** Byte `n - 1` is erased whatever it was, so the split never sees it: when
      the bytes before it hold no NUL, the line split is exactly those bytes,
      and a last line without a newline loses its last character. */
  lemma LastByteErased(s: seq<byte>, n: nat)
    requires 0 < n <= |s|
    ensures Blanked(s, n)[n - 1] == NUL
    ensures |Line(s, n)| <= n - 1
    ensures NUL !in s[..n - 1] ==> Line(s, n) == s[..n - 1]
  {
  }

  /** The shape of the vector: `words[0]` is the buffer's start, the starts
      strictly increase and each later one sits just past a space, there is
      one entry per space plus one, and `NULL` follows the last. */
  lemma ArgvShape(s: seq<byte>, n: nat)
    requires 0 < n <= |s|
    ensures var t, a := Line(s, n), Argv(s, n);
      |a| == multiset(t)[SP] + 2 && a[0] == At(0) && a[|a| - 1] == Null &&
      (forall k :: 0 <= k < |a| - 1 ==> a[k].At? && a[k].offset <= |t|) &&
      (forall k :: 0 < k < |a| - 1 ==> t[a[k].offset - 1] == SP) &&
      (forall k, l :: 0 <= k < l < |a| - 1 ==> a[k].offset < a[l].offset)
  {
    var t, a := Line(s, n), Argv(s, n);
    WordCount(t);
    forall k | 0 < k < |a| - 1
      ensures t[a[k].offset - 1] == SP
    {
      StartsAfterSpace(t, k);
    }
    forall k, l | 0 <= k < l < |a| - 1
      ensures a[k].offset < a[l].offset
    {
      StartsIncreasing(t, k, l);
    }
  }

  /** A line too long for `words`: with 255 or more spaces the vector needs
      more than 256 slots, which is why `SplitWords` requires fewer. */
  lemma ArgvOverflow(s: seq<byte>, n: nat)
    requires 0 < n <= |s|
    requires multiset(Line(s, n))[SP] >= WordSlots - 1
    ensures |Argv(s, n)| > WordSlots
  {
    WordCount(Line(s, n));
  }

  /** An empty line (`n == 1`, the newline alone) still gives one word, the
      empty string, followed by `NULL`. */
  lemma EmptyLine(s: seq<byte>)
    requires 1 <= |s|
    ensures Argv(s, 1) == [At(0), Null]
    ensures ArgvStrings(s, 1) == [[]]
  {
    assert Line(s, 1) == [];
    assert Blanked(s, 1)[0] == NUL;
    CStringUpTo(Blanked(s, 1), 0, 0);
  }

  /** What `execv` reads through `words[k]` is word `k` of the reference split
      of the line: the split in place agrees with `Split`. */
  lemma {:induction false} ArgvWord(s: seq<byte>, n: nat, k: nat)
    requires 0 < n <= |s|
    requires k < |Starts(Line(s, n))|
    ensures Starts(Line(s, n))[k] <= |s| && |Split(Line(s, n))| == |Starts(Line(s, n))|
    ensures CStringAt(Blanked(s, n), Starts(Line(s, n))[k]) == Split(Line(s, n))[k]
  {
    var t, b := Line(s, n), Blanked(s, n);
    WordAt(t, k);
    var st := Starts(t);
    var lo, e := st[k], WordEnd(t, k);
    var w := Split(t)[k];
    assert w == t[lo..e];
    forall j | lo <= j < e
      ensures b[j] == t[j]
    {
      assert t[j] == w[j - lo];
    }
    assert b[lo..e] == t[lo..e];
    if e < |t| {
      StartsAfterSpace(t, k + 1);
    }
    assert b[e] == NUL;
    CStringUpTo(b, lo, e);
  }

  /** The argument strings are exactly the words of the line. */
  lemma ArgvIsSplit(s: seq<byte>, n: nat)
    requires 0 < n <= |s|
    ensures ArgvStrings(s, n) == Split(Line(s, n))
  {
    var t := Line(s, n);
    WordCount(t);
    forall k | 0 <= k < |Starts(t)|
      ensures ArgvStrings(s, n)[k] == Split(t)[k]
    {
      ArgvWord(s, n, k);
    }
  }

  /** Round trip: joining the argument strings with single spaces gives the
      line back; for a line holding no NUL byte that is everything read but
      the last byte. */
  lemma ArgvRoundTrip(s: seq<byte>, n: nat)
    requires 0 < n <= |s|
    ensures Join(ArgvStrings(s, n)) == Line(s, n)
    ensures NUL !in s[..n - 1] ==> Join(ArgvStrings(s, n)) == s[..n - 1]
  {
    ArgvIsSplit(s, n);
    JoinSplit(Line(s, n));
    LastByteErased(s, n);
  }

  /** Runs of spaces are not collapsed: two spaces in a row give an empty
      argument between the words around them. */
  lemma ArgvKeepsEmptyWords(s: seq<byte>, n: nat, x: seq<byte>, u: seq<byte>)
    requires 0 < n <= |s|
    requires Line(s, n) == x + [SP, SP] + u
    ensures ArgvStrings(s, n) == Split(x) + [[]] + Split(u)
  {
    ArgvIsSplit(s, n);
    DoubleSpace(x, u);
  }

  /** Nothing else changes: byte `n - 1` and the spaces of the line become
      NUL; every other byte, a space past an earlier NUL included, keeps its
      value and position, and a byte changes exactly when it is one of those
      and was not NUL already. */
  lemma OnlySpacesBlanked(s: seq<byte>, n: nat, j: nat)
    requires 0 < n <= |s| && j < |s|
    ensures Blanked(s, n)[n - 1] == NUL
    ensures j < |Line(s, n)| && s[j] == SP ==> Blanked(s, n)[j] == NUL
    ensures j != n - 1 && s[j] != SP ==> Blanked(s, n)[j] == s[j]
    ensures j != n - 1 && |Line(s, n)| <= j ==> Blanked(s, n)[j] == s[j]
    ensures Blanked(s, n)[j] != s[j] <==>
      s[j] != NUL && (j == n - 1 || (j < |Line(s, n)| && s[j] == SP))
  {
  }
}
