/** The C string primitives the shell's word splitter relies on: bytes, the
    NUL terminator, `char *` pointers into one buffer, and `strchr`. */
module CStrings {

  /** A C `char` as `getline` stores it: one byte. */
  newtype byte = x: int | 0 <= x < 256

  /** The string terminator `'\0'`. */
  const NUL: byte := 0
  /** The newline `'\n'` that `getline` keeps at the end of a line. */
  const NL: byte := 10
  /** The word separator `' '`. */
  const SP: byte := 32

  /** A `char *` into one line buffer: `NULL`, or the address `line + offset`. */
  datatype Ptr = Null | At(offset: nat)

  /** The index of the first NUL in `s`, or `|s|` when there is none. */
  function FirstNul(s: seq<byte>): (z: nat)
    ensures z <= |s|
    ensures NUL !in s[..z]
    ensures z < |s| ==> s[z] == NUL
  {
    if s == [] || s[0] == NUL then 0
    else
      var z' := FirstNul(s[1..]);
      assert s[..1 + z'] == [s[0]] + s[1..][..z'];
      1 + z'
  }

  /** The C string that starts at offset `p` of the buffer `s`: the bytes from
      `p` up to, not including, the first NUL at or after `p`. */
  function CStringAt(s: seq<byte>, p: nat): (w: seq<byte>)
    requires p <= |s|
    ensures p + |w| <= |s| && w == s[p..p + |w|]
    ensures NUL !in w
    ensures p + |w| == |s| || s[p + |w|] == NUL
  {
    var z := FirstNul(s[p..]);
    assert s[p..][..z] == s[p..p + z];
    s[p..p + z]
  }

  /** A NUL at `e` with none in `[p, e)` delimits the C string at `p`. */
  lemma CStringUpTo(s: seq<byte>, p: nat, e: nat)
    requires p <= e < |s|
    requires NUL !in s[p..e] && s[e] == NUL
    ensures CStringAt(s, p) == s[p..e]
  {
  }

  /** The C string at `p` ends at or before any NUL at `e >= p`. */
  lemma CStringBefore(s: seq<byte>, p: nat, e: nat)
    requires p <= e < |s| && s[e] == NUL
    ensures p + |CStringAt(s, p)| <= e
  {
    var w := CStringAt(s, p);
    assert forall j :: p <= j < p + |w| ==> s[j] == w[j - p] != NUL;
  }

  /** What `strchr(s + p, c)` returns: a pointer to the first byte at or after
      `p` that equals `c`, or `NULL` when the string's terminator comes first.
      As in C, a search for NUL itself finds the terminator. */
  ghost predicate IsStrChr(s: seq<byte>, p: nat, c: byte, r: Ptr)
    requires p <= |s|
  {
    (r.Null? <==> c != NUL && c !in CStringAt(s, p)) &&
    (r.At? ==> p <= r.offset < |s| && s[r.offset] == c &&
               c !in s[p..r.offset] && NUL !in s[p..r.offset])
  }

  /** `strchr` scanning the buffer from offset `p`.  The buffer must hold a NUL
      at or after `p`, or the scan would run off its end. */
  method StrChr(s: array<byte>, p: nat, c: byte) returns (r: Ptr)
    requires p <= s.Length
    requires NUL in s[p..]
    ensures IsStrChr(s[..], p, c, r)
  {
    ghost var z := p + FirstNul(s[p..]);
    assert s[p..][..|s[p..]|] == s[p..];
    var j := p;
    while s[j] != c && s[j] != NUL
      invariant p <= j <= z
      invariant c !in s[p..j] && NUL !in s[p..j]
      decreases z - j
    {
      assert s[p..j + 1] == s[p..j] + [s[j]];
      j := j + 1;
    }
    if s[j] == c {
      r := At(j);
      if c == NUL {
        CStringUpTo(s[..], p, j);
      }
    } else {
      r := Null;
      CStringUpTo(s[..], p, j);
    }
  }
}
