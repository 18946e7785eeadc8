/**
 * The Go standard-library string functions the core relies on, given explicit
 * definitions over strings of Unicode code points: unicode.IsSpace, the RE2
 * class \s, strings.TrimSpace, strings.Index, strings.Fields, strings.Join,
 * and ASCII case mapping for strings.ToLower, unicode.ToLower and
 * unicode.ToUpper. LastIndexOf is not called by the core: it serves the
 * hand-written recogniser of the e-mail pattern.
 */
module Text {
  import opened Wrappers

  /** unicode.IsSpace: the Latin-1 spaces and the Unicode White_Space characters. */
  predicate IsSpace(c: char) {
    || c == '\t' || c == '\n' || c == '\U{0B}' || c == '\U{0C}' || c == '\r' || c == ' '
    || c == '\U{85}' || c == '\U{A0}' || c == '\U{1680}'
    || ('\U{2000}' <= c <= '\U{200A}')
    || c == '\U{2028}' || c == '\U{2029}' || c == '\U{202F}' || c == '\U{205F}' || c == '\U{3000}'
  }

  /** RE2's \s, which is [\t\n\f\r ]: narrower than IsSpace (no \v, nothing beyond ASCII). */
  predicate IsRegexSpace(c: char) {
    c == '\t' || c == '\n' || c == '\U{0C}' || c == '\r' || c == ' '
  }

  predicate AllSpace(s: string) {
    forall k :: 0 <= k < |s| ==> IsSpace(s[k])
  }

  /** No whitespace at either end. */
  predicate IsTrimmed(s: string) {
    s == [] || (!IsSpace(s[0]) && !IsSpace(s[|s| - 1]))
  }

  // ---------------------------------------------------------------------------
  // strings.TrimSpace
  // ---------------------------------------------------------------------------

  /** Index of the first non-space at or after i. */
  function SkipSpace(s: string, i: nat): (k: nat)
    requires i <= |s|
    ensures i <= k <= |s|
    ensures forall m :: i <= m < k ==> IsSpace(s[m])
    ensures k < |s| ==> !IsSpace(s[k])
    decreases |s| - i
  {
    if i < |s| && IsSpace(s[i]) then SkipSpace(s, i + 1) else i
  }

  /** Start of the run of spaces that ends at j, never going below lo. */
  function SkipSpaceBack(s: string, lo: nat, j: nat): (k: nat)
    requires lo <= j <= |s|
    ensures lo <= k <= j
    ensures forall m :: k <= m < j ==> IsSpace(s[m])
    ensures lo < k ==> !IsSpace(s[k - 1])
    decreases j
  {
    if lo < j && IsSpace(s[j - 1]) then SkipSpaceBack(s, lo, j - 1) else j
  }

  /** strings.TrimSpace: drop the leading and the trailing whitespace. */
  function TrimSpace(s: string): (r: string)
    ensures IsTrimmed(r)
    ensures |r| <= |s|
  {
    var i := SkipSpace(s, 0);
    s[i..SkipSpaceBack(s, i, |s|)]
  }

  /** TrimSpace(s) is the one trimmed slice of s that has only whitespace around it. */
  lemma TrimSpaceUnique(s: string, i: nat, j: nat)
    requires i <= j <= |s|
    requires forall k :: 0 <= k < i ==> IsSpace(s[k])
    requires forall k :: j <= k < |s| ==> IsSpace(s[k])
    requires IsTrimmed(s[i..j])
    ensures TrimSpace(s) == s[i..j]
  {
    var a := SkipSpace(s, 0);
    var b := SkipSpaceBack(s, a, |s|);
    if i == j {
      assert forall k :: 0 <= k < |s| ==> IsSpace(s[k]) by {
        forall k | 0 <= k < |s| ensures IsSpace(s[k]) {
          if k >= i { assert j <= k; }
        }
      }
      assert a == |s|;
    } else {
      assert s[i] == s[i..j][0] && s[j - 1] == s[i..j][j - i - 1];
      assert a == i;
      assert b == j;
    }
  }

  lemma TrimSpaceIdempotent(s: string)
    ensures TrimSpace(TrimSpace(s)) == TrimSpace(s)
  {
    var r := TrimSpace(s);
    assert r[0..|r|] == r;
    TrimSpaceUnique(r, 0, |r|);
  }

  /** Whitespace around a text does not change what TrimSpace keeps of it. */
  lemma TrimSpaceAround(x: string, y: string, z: string)
    requires AllSpace(x) && AllSpace(z)
    ensures TrimSpace(x + y + z) == TrimSpace(y)
  {
    var s := x + y + z;
    var a := SkipSpace(y, 0);
    var b := SkipSpaceBack(y, a, |y|);
    SpacesBefore(x, y, z, a);
    SpacesAfter(x, y, z, b);
    assert s[|x| + a..|x| + b] == y[a..b];
    TrimSpaceUnique(s, |x| + a, |x| + b);
  }

  lemma SpacesBefore(x: string, y: string, z: string, a: nat)
    requires AllSpace(x) && a <= |y|
    requires forall k :: 0 <= k < a ==> IsSpace(y[k])
    ensures forall k :: 0 <= k < |x| + a ==> IsSpace((x + y + z)[k])
  {
    forall k | 0 <= k < |x| + a
      ensures IsSpace((x + y + z)[k])
    {
      if k >= |x| {
        assert (x + y + z)[k] == y[k - |x|];
      }
    }
  }

  lemma SpacesAfter(x: string, y: string, z: string, b: nat)
    requires AllSpace(z) && b <= |y|
    requires forall k :: b <= k < |y| ==> IsSpace(y[k])
    ensures forall k :: |x| + b <= k < |x + y + z| ==> IsSpace((x + y + z)[k])
  {
    forall k | |x| + b <= k < |x + y + z|
      ensures IsSpace((x + y + z)[k])
    {
      if k < |x| + |y| {
        assert (x + y + z)[k] == y[k - |x|];
      } else {
        assert (x + y + z)[k] == z[k - |x| - |y|];
      }
    }
  }

  /** TrimSpace keeps nothing exactly when the text is all whitespace. */
  lemma TrimSpaceEmpty(s: string)
    ensures TrimSpace(s) == [] <==> AllSpace(s)
  {
    var a := SkipSpace(s, 0);
    if AllSpace(s) {
      assert a == |s|;
    }
  }

  /** A text that already has no whitespace at either end is its own trimming. */
  lemma TrimSpaceOfTrimmed(s: string)
    requires IsTrimmed(s)
    ensures TrimSpace(s) == s
  {
    assert s[0..|s|] == s;
    TrimSpaceUnique(s, 0, |s|);
  }

  // ---------------------------------------------------------------------------
  // strings.Index, and the last occurrence of a character
  // ---------------------------------------------------------------------------

  /** First index of c at or after i, if any. */
  function IndexFrom(s: string, c: char, i: nat): (r: Option<nat>)
    requires i <= |s|
    ensures r.Some? ==> i <= r.value < |s| && s[r.value] == c
    ensures r.Some? ==> forall k :: i <= k < r.value ==> s[k] != c
    ensures r.None? ==> forall k :: i <= k < |s| ==> s[k] != c
    decreases |s| - i
  {
    if i == |s| then None
    else if s[i] == c then Some(i)
    else IndexFrom(s, c, i + 1)
  }

  /** strings.Index(s, string(c)), with -1 as None. */
  function IndexOf(s: string, c: char): Option<nat> {
    IndexFrom(s, c, 0)
  }

  /** Last index of c strictly below j, if any. */
  function LastIndexBelow(s: string, c: char, j: nat): (r: Option<nat>)
    requires j <= |s|
    ensures r.Some? ==> r.value < j && s[r.value] == c
    ensures r.Some? ==> forall k :: r.value < k < j ==> s[k] != c
    ensures r.None? ==> forall k :: 0 <= k < j ==> s[k] != c
    decreases j
  {
    if j == 0 then None
    else if s[j - 1] == c then Some(j - 1)
    else LastIndexBelow(s, c, j - 1)
  }

  /** The index of the last c in s, or None; used by the e-mail recogniser. */
  function LastIndexOf(s: string, c: char): Option<nat> {
    LastIndexBelow(s, c, |s|)
  }

  // ---------------------------------------------------------------------------
  // Case mapping (ASCII letters only)
  // ---------------------------------------------------------------------------

  predicate IsUpperAscii(c: char) { 'A' <= c <= 'Z' }

  predicate IsLowerAscii(c: char) { 'a' <= c <= 'z' }

  function ToLowerChar(c: char): char {
    if IsUpperAscii(c) then (c as int + 32) as char else c
  }

  function ToUpperChar(c: char): char {
    if IsLowerAscii(c) then (c as int - 32) as char else c
  }

  /** strings.ToLower, rune by rune. */
  function ToLower(s: string): (r: string)
    ensures |r| == |s|
    ensures forall k :: 0 <= k < |s| ==> r[k] == ToLowerChar(s[k])
  {
    seq(|s|, k requires 0 <= k < |s| => ToLowerChar(s[k]))
  }

  lemma ToLowerIdempotent(s: string)
    ensures ToLower(ToLower(s)) == ToLower(s)
  {
  }

  /** Lower-casing and trimming commute, since case mapping never touches whitespace. */
  lemma TrimSpaceToLower(s: string)
    ensures TrimSpace(ToLower(s)) == ToLower(TrimSpace(s))
  {
    var a := SkipSpace(s, 0);
    var b := SkipSpaceBack(s, a, |s|);
    var l := ToLower(s);
    ToLowerSpaces(s);
    SameSpacesSkip(s, l, 0);
    SameSpacesSkipBack(s, l, a, |s|);
    assert l[a..b] == ToLower(s[a..b]);
  }

  /** Two texts with whitespace at the same places skip to the same index. */
  lemma {:induction false} SameSpacesSkip(s: string, t: string, i: nat)
    requires |s| == |t| && i <= |s|
    requires forall k :: 0 <= k < |s| ==> IsSpace(t[k]) == IsSpace(s[k])
    ensures SkipSpace(t, i) == SkipSpace(s, i)
    decreases |s| - i
  {
    if i < |s| && IsSpace(s[i]) {
      SameSpacesSkip(s, t, i + 1);
    }
  }

  lemma {:induction false} SameSpacesSkipBack(s: string, t: string, lo: nat, j: nat)
    requires |s| == |t| && lo <= j <= |s|
    requires forall k :: 0 <= k < |s| ==> IsSpace(t[k]) == IsSpace(s[k])
    ensures SkipSpaceBack(t, lo, j) == SkipSpaceBack(s, lo, j)
    decreases j
  {
    if lo < j && IsSpace(s[j - 1]) {
      SameSpacesSkipBack(s, t, lo, j - 1);
    }
  }

  /** Lower-casing keeps every whitespace character and adds none. */
  lemma ToLowerSpaces(s: string)
    ensures forall k :: 0 <= k < |s| ==> IsSpace(ToLower(s)[k]) == IsSpace(s[k])
  {
    forall k | 0 <= k < |s| ensures IsSpace(ToLower(s)[k]) == IsSpace(s[k]) {
      ToLowerCharSpace(s[k]);
    }
  }

  lemma ToLowerCharSpace(c: char)
    ensures IsSpace(ToLowerChar(c)) == IsSpace(c)
  {
    if IsUpperAscii(c) {
      assert 'a' <= ToLowerChar(c) <= 'z';
    }
  }

  // ---------------------------------------------------------------------------
  // strings.Fields, strings.Join
  // ---------------------------------------------------------------------------

  /** A field: non-empty and free of whitespace. */
  predicate IsWord(w: string) {
    w != [] && forall k :: 0 <= k < |w| ==> !IsSpace(w[k])
  }

  /** Length of the longest whitespace-free prefix. */
  function WordLen(s: string): (n: nat)
    ensures n <= |s|
    ensures forall k :: 0 <= k < n ==> !IsSpace(s[k])
    ensures n < |s| ==> IsSpace(s[n])
  {
    if s == [] || IsSpace(s[0]) then 0 else 1 + WordLen(s[1..])
  }

  /** strings.Fields: the maximal runs of non-whitespace, in order. */
  function Fields(s: string): (ws: seq<string>)
    ensures forall k :: 0 <= k < |ws| ==> IsWord(ws[k])
    decreases |s|
  {
    if s == [] then []
    else if IsSpace(s[0]) then Fields(s[1..])
    else
      var n := WordLen(s);
      [s[..n]] + Fields(s[n..])
  }

  /** strings.Join */
  function Join(ws: seq<string>, sep: string): string {
    if |ws| == 0 then ""
    else if |ws| == 1 then ws[0]
    else ws[0] + sep + Join(ws[1..], sep)
  }

  lemma WordLenUnique(s: string, n: nat)
    requires n <= |s|
    requires forall k :: 0 <= k < n ==> !IsSpace(s[k])
    requires n < |s| ==> IsSpace(s[n])
    ensures WordLen(s) == n
  {
  }

  /** A text has no fields exactly when it is all whitespace. */
  lemma {:induction false} FieldsEmpty(s: string)
    ensures Fields(s) == [] <==> AllSpace(s)
    decreases |s|
  {
    if s != [] && IsSpace(s[0]) {
      FieldsEmpty(s[1..]);
      assert AllSpace(s[1..]) ==> AllSpace(s) by {
        if AllSpace(s[1..]) {
          forall k | 0 <= k < |s| ensures IsSpace(s[k]) {
            if k > 0 { assert s[k] == s[1..][k - 1]; }
          }
        }
      }
    }
  }

  /** Splitting on whitespace distributes over a concatenation that does not glue two words together. */
  lemma {:induction false} FieldsAppend(x: string, y: string)
    requires x == [] || y == [] || IsSpace(x[|x| - 1]) || IsSpace(y[0])
    ensures Fields(x + y) == Fields(x) + Fields(y)
    decreases |x|
  {
    if x == [] {
      assert x + y == y;
    } else if IsSpace(x[0]) {
      FieldsAppend(x[1..], y);
      FieldsAppendSpace(x, y);
    } else {
      var n := WordLen(x);
      FieldsAppend(x[n..], y);
      FieldsAppendWord(x, y);
    }
  }

  /** The step of FieldsAppend past a leading space of x. */
  lemma FieldsAppendSpace(x: string, y: string)
    requires x != [] && IsSpace(x[0])
    requires Fields(x[1..] + y) == Fields(x[1..]) + Fields(y)
    ensures Fields(x + y) == Fields(x) + Fields(y)
  {
    assert (x + y)[1..] == x[1..] + y;
  }

  /** The step of FieldsAppend past the first word of x. */
  lemma FieldsAppendWord(x: string, y: string)
    requires x != [] && !IsSpace(x[0])
    requires y == [] || IsSpace(x[|x| - 1]) || IsSpace(y[0])
    requires Fields(x[WordLen(x)..] + y) == Fields(x[WordLen(x)..]) + Fields(y)
    ensures Fields(x + y) == Fields(x) + Fields(y)
  {
    var s, n := x + y, WordLen(x);
    SliceAppend(x, y, n);
    WordLenAppend(x, y);
    assert s[0] == x[0];
  }

  lemma SliceAppend(x: string, y: string, n: nat)
    requires n <= |x|
    ensures (x + y)[..n] == x[..n] && (x + y)[n..] == x[n..] + y
  {
  }

  /** The first word of x is the first word of x + y when the two do not glue together. */
  lemma WordLenAppend(x: string, y: string)
    requires x != []
    requires y == [] || IsSpace(x[|x| - 1]) || IsSpace(y[0])
    ensures WordLen(x + y) == WordLen(x)
  {
    var n, s := WordLen(x), x + y;
    assert forall k :: 0 <= k < n ==> s[k] == x[k];
    if n < |x| {
      assert s[n] == x[n];
    } else if n < |s| {
      assert !IsSpace(x[|x| - 1]);
      assert s[n] == y[0];
    }
    WordLenUnique(s, n);
  }

  /** Whitespace around a text adds no fields. */
  lemma FieldsTrimSpace(s: string)
    ensures Fields(TrimSpace(s)) == Fields(s)
  {
    var a := SkipSpace(s, 0);
    var b := SkipSpaceBack(s, a, |s|);
    var x, y, z := s[..a], s[a..b], s[b..];
    assert s == x + (y + z);
    assert AllSpace(x);
    assert AllSpace(z);
    FieldsSpaceAround(x, y, z);
  }

  lemma FieldsSpaceAround(x: string, y: string, z: string)
    requires AllSpace(x) && AllSpace(z)
    ensures Fields(x + (y + z)) == Fields(y)
  {
    FieldsEmpty(x);
    FieldsEmpty(z);
    FieldsAppend(y, z);
    assert Fields(y + z) == Fields(y);
    FieldsAppend(x, y + z);
  }

  lemma FieldsOfWord(w: string)
    requires IsWord(w)
    ensures Fields(w) == [w]
  {
    WordLenUnique(w, |w|);
    assert w[..|w|] == w;
    assert w[|w|..] == [];
  }

  /** Fields undoes a single-space Join of fields. */
  lemma {:induction false} FieldsOfJoin(ws: seq<string>)
    requires forall k :: 0 <= k < |ws| ==> IsWord(ws[k])
    ensures Fields(Join(ws, " ")) == ws
  {
    if |ws| == 1 {
      FieldsOfWord(ws[0]);
    } else if |ws| > 1 {
      var rest := Join(ws[1..], " ");
      FieldsOfJoin(ws[1..]);
      assert ws[0] + " " + rest == ws[0] + (" " + rest);
      FieldsAppend(ws[0], " " + rest);
      FieldsOfWord(ws[0]);
      assert (" " + rest)[1..] == rest;
    }
  }

  /** A single-space Join of fields has no whitespace at its ends and is empty only for no fields. */
  lemma {:induction false} JoinOfWords(ws: seq<string>)
    requires forall k :: 0 <= k < |ws| ==> IsWord(ws[k])
    ensures IsTrimmed(Join(ws, " "))
    ensures Join(ws, " ") == [] <==> ws == []
  {
    if |ws| > 1 {
      JoinOfWords(ws[1..]);
      var rest := Join(ws[1..], " ");
      var j := ws[0] + " " + rest;
      assert j[0] == ws[0][0];
      assert j[|j| - 1] == rest[|rest| - 1];
    }
  }
}
