/** Character-level vocabulary shared by the fence scanner and the splitters:
    the three-backtick fence marker, Python's `str.lstrip`/`str.rstrip`/`str.strip`
    over a set of characters, and concatenation of a list of sequences. */
module Text {

  /** The three-character code-fence marker of the transport's markdown dialect. */
  const Marker: string := "```"

  /** The characters `str.strip()` removes when given no argument: exactly the
      characters for which Python's `str.isspace` holds. */
  const Whitespace: set<char> := {
    '\t', '\n', '\U{0B}', '\U{0C}', '\r', '\U{1C}', '\U{1D}', '\U{1E}', '\U{1F}', ' ',
    '\U{85}', '\U{A0}', '\U{1680}',
    '\U{2000}', '\U{2001}', '\U{2002}', '\U{2003}', '\U{2004}', '\U{2005}',
    '\U{2006}', '\U{2007}', '\U{2008}', '\U{2009}', '\U{200A}',
    '\U{2028}', '\U{2029}', '\U{202F}', '\U{205F}', '\U{3000}'
  }

  /** The character set of `lstrip('```')`: Python treats the argument as a set,
      so any number of backticks is removed, not exactly three. */
  const Backticks: set<char> := {'`'}

  /** `s[k:k+3] == "```"` in Python: near the end the slice is shorter and never matches. */
  predicate IsMarkerAt(s: string, k: nat) {
    k + 3 <= |s| && s[k..k + 3] == Marker
  }

  /** No occurrence of the fence marker starts anywhere in `s`. */
  predicate NoMarker(s: string) {
    forall k :: 0 <= k < |s| ==> !IsMarkerAt(s, k)
  }

  /** Wraps a code body in its own pair of fence markers. */
  function Fence(body: string): string {
    Marker + body + Marker
  }

  /** Removes the two fence markers a splitter added around a chunk. */
  function Unfence(chunk: string): string
    requires |chunk| >= 6
  {
    chunk[3..|chunk| - 3]
  }

  /** Every chunk wrapped in its own pair of markers. */
  function FenceAll(bodies: seq<string>): seq<string> {
    seq(|bodies|, k requires 0 <= k < |bodies| => Fence(bodies[k]))
  }

  /** The bodies of chunks that each carry a pair of markers. */
  function UnfenceAll(chunks: seq<string>): seq<string>
    requires forall k :: 0 <= k < |chunks| ==> |chunks[k]| >= 6
  {
    seq(|chunks|, k requires 0 <= k < |chunks| => Unfence(chunks[k]))
  }

  /** `s.startswith('```') and s.endswith('```')`; a lone "```" satisfies both. */
  predicate IsFenced(s: string) {
    |s| >= 3 && s[..3] == Marker && s[|s| - 3..] == Marker
  }

  /** Python's `s.lstrip(chars)`: the longest suffix of `s` that does not start with a character of `chars`. */
  function LStrip(s: string, chars: set<char>): (r: string)
    ensures |r| <= |s| && r == s[|s| - |r|..]
    ensures forall k :: 0 <= k < |s| - |r| ==> s[k] in chars
    ensures r == [] || r[0] !in chars
    decreases |s|
  {
    if |s| > 0 && s[0] in chars then LStrip(s[1..], chars) else s
  }

  /** Python's `s.rstrip(chars)`: the longest prefix of `s` that does not end with a character of `chars`. */
  function RStrip(s: string, chars: set<char>): (r: string)
    ensures |r| <= |s| && r == s[..|r|]
    ensures forall k :: |r| <= k < |s| ==> s[k] in chars
    ensures r == [] || r[|r| - 1] !in chars
    decreases |s|
  {
    if |s| > 0 && s[|s| - 1] in chars then RStrip(s[..|s| - 1], chars) else s
  }

  /** Python's `s.lstrip(chars).rstrip(chars)`: no character of `chars` is left at either end. */
  function Strip(s: string, chars: set<char>): (r: string)
    ensures |r| <= |s|
    ensures r == [] || (r[0] !in chars && r[|r| - 1] !in chars)
  {
    RStrip(LStrip(s, chars), chars)
  }

  /** Stripping only cuts: the result is a contiguous slice `s[a..a+|r|]` of `s`, and
      every character cut from either end belongs to `chars`. */
  lemma StripCutsOnlyChars(s: string, chars: set<char>)
    ensures exists a :: StripsTo(s, chars, a, Strip(s, chars))
  {
    var l := LStrip(s, chars);
    var r := RStrip(l, chars);
    var a := |s| - |l|;
    assert l == s[a..];
    assert r == l[..|r|];
    assert r == s[a..a + |r|];
    forall k | a + |r| <= k < |s|
      ensures s[k] in chars
    {
      assert s[k] == l[k - a];
    }
    assert r == Strip(s, chars);
    assert StripsTo(s, chars, a, r);
  }

  /** `r` sits at offset `a` of `s` and everything outside it belongs to `chars`. */
  ghost predicate StripsTo(s: string, chars: set<char>, a: int, r: string) {
    && 0 <= a <= a + |r| <= |s|
    && r == s[a..a + |r|]
    && (forall k :: 0 <= k < a ==> s[k] in chars)
    && (forall k :: a + |r| <= k < |s| ==> s[k] in chars)
  }

  /** Characters of `chars` in front are skipped by `lstrip`. */
  lemma {:induction false} LStripSkips(p: string, s: string, chars: set<char>)
    requires forall k :: 0 <= k < |p| ==> p[k] in chars
    ensures LStrip(p + s, chars) == LStrip(s, chars)
    decreases |p|
  {
    if |p| == 0 {
      assert p + s == s;
    } else {
      assert (p + s)[1..] == p[1..] + s;
      LStripSkips(p[1..], s, chars);
    }
  }

  /** Once `lstrip` stops inside `s`, whatever follows `s` is kept whole. */
  lemma {:induction false} LStripKeepsTail(s: string, x: string, chars: set<char>)
    requires LStrip(s, chars) != []
    ensures LStrip(s + x, chars) == LStrip(s, chars) + x
    decreases |s|
  {
    if s[0] in chars {
      assert (s + x)[1..] == s[1..] + x;
      LStripKeepsTail(s[1..], x, chars);
    }
  }

  /** Characters of `chars` at the end are skipped by `rstrip`. */
  lemma {:induction false} RStripSkips(s: string, p: string, chars: set<char>)
    requires forall k :: 0 <= k < |p| ==> p[k] in chars
    ensures RStrip(s + p, chars) == RStrip(s, chars)
    decreases |p|
  {
    if |p| == 0 {
      assert s + p == s;
    } else {
      assert (s + p)[..|s + p| - 1] == s + p[..|p| - 1];
      RStripSkips(s, p[..|p| - 1], chars);
    }
  }

  /** No leading or trailing whitespace, the shape of every prose segment. */
  predicate Trimmed(s: string) {
    s == [] || (s[0] !in Whitespace && s[|s| - 1] !in Whitespace)
  }

  /** Concatenation of a list of sequences, Python's `''.join(xs)` for strings. */
  function Concat<T>(xss: seq<seq<T>>): seq<T>
    decreases |xss|
  {
    if |xss| == 0 then [] else xss[0] + Concat(xss[1..])
  }

  /** Concatenation distributes over appending lists. */
  lemma {:induction false} ConcatAppend<T>(a: seq<seq<T>>, b: seq<seq<T>>)
    ensures Concat(a + b) == Concat(a) + Concat(b)
    decreases |a|
  {
    if |a| == 0 {
      assert a + b == b;
    } else {
      assert (a + b)[1..] == a[1..] + b;
      ConcatAppend(a[1..], b);
    }
  }

  /** A property of every element of every list holds of every element of their concatenation. */
  lemma {:induction false} ConcatKeeps<T>(parts: seq<seq<T>>, p: T -> bool)
    requires forall k, j :: 0 <= k < |parts| && 0 <= j < |parts[k]| ==> p(parts[k][j])
    ensures forall j :: 0 <= j < |Concat(parts)| ==> p(Concat(parts)[j])
    decreases |parts|
  {
    if |parts| > 0 {
      ConcatKeeps(parts[1..], p);
      var c := Concat(parts);
      assert c == parts[0] + Concat(parts[1..]);
      forall j | 0 <= j < |c|
        ensures p(c[j])
      {
        if j < |parts[0]| {
          assert c[j] == parts[0][j];
        } else {
          assert c[j] == Concat(parts[1..])[j - |parts[0]|];
        }
      }
    }
  }

  /** Every element of a list is a contiguous piece of the concatenation. */
  lemma {:induction false} ConcatInfix<T>(xss: seq<seq<T>>, k: nat)
    requires k < |xss|
    ensures Concat(xss) == Concat(xss[..k]) + xss[k] + Concat(xss[k + 1..])
  {
    assert xss == xss[..k] + [xss[k]] + xss[k + 1..];
    ConcatAppend(xss[..k] + [xss[k]], xss[k + 1..]);
    ConcatAppend(xss[..k], [xss[k]]);
    assert Concat([xss[k]]) == xss[k] + Concat([xss[k]][1..]);
    assert [xss[k]][1..] == [];
  }

  /** No marker starts in `text[start..i]`: the scanner passed over each of those positions. */
  ghost predicate Unmarked(text: string, start: nat, i: nat) {
    forall j :: start <= j < i ==> !IsMarkerAt(text, j)
  }

  /** The accumulator never contains a marker, even one that straddles characters appended separately. */
  lemma UnmarkedSlice(text: string, start: nat, i: nat)
    requires start <= i <= |text|
    requires Unmarked(text, start, i)
    ensures NoMarker(text[start..i])
  {
    var acc := text[start..i];
    forall k | 0 <= k < |acc|
      ensures !IsMarkerAt(acc, k)
    {
      assert !IsMarkerAt(text, start + k);
      if k + 3 <= |acc| {
        assert acc[k..k + 3] == [acc[k], acc[k + 1], acc[k + 2]];
        assert text[start + k..start + k + 3] == [text[start + k], text[start + k + 1], text[start + k + 2]];
      }
    }
  }

  /** The middle of a marker-free concatenation is marker-free. */
  lemma NoMarkerInfix(x: string, y: string, z: string)
    requires NoMarker(x + y + z)
    ensures NoMarker(y)
  {
    var s := x + y + z;
    UnmarkedSlice(s, |x|, |x| + |y|);
    assert s[|x|..|x| + |y|] == y;
  }

  /** Stripping characters from both ends keeps a string marker-free. */
  lemma StripKeepsNoMarker(s: string, chars: set<char>)
    requires NoMarker(s)
    ensures NoMarker(Strip(s, chars))
  {
    var l := LStrip(s, chars);
    UnmarkedSlice(s, |s| - |l|, |s|);
    assert s[|s| - |l|..|s|] == l;
    var r := RStrip(l, chars);
    UnmarkedSlice(l, 0, |r|);
    assert l[0..|r|] == r;
  }

  /** Every element of a marker-free concatenation is marker-free. */
  lemma PiecesOfMarkerFree(xs: seq<string>)
    requires NoMarker(Concat(xs))
    ensures forall k :: 0 <= k < |xs| ==> NoMarker(xs[k])
  {
    forall k | 0 <= k < |xs|
      ensures NoMarker(xs[k])
    {
      ConcatInfix(xs, k);
      NoMarkerInfix(Concat(xs[..k]), xs[k], Concat(xs[k + 1..]));
    }
  }

  /** Fencing and unfencing are inverse, and a fenced chunk passes the dispatcher's test. */
  lemma FenceRoundTrip(body: string)
    ensures |Fence(body)| == |body| + 6
    ensures Unfence(Fence(body)) == body
    ensures IsFenced(Fence(body))
  {
    var c := Fence(body);
    assert c[..3] == Marker;
    assert c[|c| - 3..] == Marker;
    assert c[3..|c| - 3] == body;
  }

  /** Unfencing undoes fencing on whole lists. */
  lemma FenceAllRoundTrip(bodies: seq<string>)
    ensures forall k :: 0 <= k < |FenceAll(bodies)| ==> |FenceAll(bodies)[k]| >= 6
    ensures UnfenceAll(FenceAll(bodies)) == bodies
  {
    forall k | 0 <= k < |bodies|
      ensures Unfence(FenceAll(bodies)[k]) == bodies[k]
    {
      FenceRoundTrip(bodies[k]);
    }
  }

  /** A string that carries no marker cannot pass the dispatcher's `startswith('```')` test. */
  lemma {:induction false} MarkerFreeIsNotFenced(s: string)
    requires NoMarker(s)
    ensures !IsFenced(s)
  {
    if |s| >= 3 {
      assert !IsMarkerAt(s, 0);
      assert s[0..3] == s[..3];
    }
  }
}
