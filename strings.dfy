/**
 * The string helpers of pkg/utils/string.go: e-mail validation against the
 * pattern ^[a-zA-Z0-9._%+-]+@[a-zA-Z0-9.-]+\.[a-zA-Z]{2,}$ inside a length
 * window, e-mail normalisation, title-casing of names, and the blank test.
 */
module StringUtils {
  import opened Wrappers
  import opened Constants
  import opened Text

  // ---------------------------------------------------------------------------
  // The e-mail pattern
  // ---------------------------------------------------------------------------

  predicate IsAsciiLetter(c: char) { IsUpperAscii(c) || IsLowerAscii(c) }

  predicate IsAsciiDigit(c: char) { '0' <= c <= '9' }

  /** [a-zA-Z0-9._%+-] */
  predicate IsLocalChar(c: char) {
    IsAsciiLetter(c) || IsAsciiDigit(c) || c == '.' || c == '_' || c == '%' || c == '+' || c == '-'
  }

  /** [a-zA-Z0-9.-] */
  predicate IsDomainChar(c: char) {
    IsAsciiLetter(c) || IsAsciiDigit(c) || c == '.' || c == '-'
  }

  /**
   * The pattern split at the '@' at index at and the '.' at index dot: a
   * non-empty local part, a non-empty domain part, and at least two letters
   * after the dot running to the end.
   */
  predicate EmailSplit(s: string, at: nat, dot: nat) {
    && 0 < at && at + 1 < dot && dot + 2 < |s|
    && s[at] == '@' && s[dot] == '.'
    && (forall k :: 0 <= k < at ==> IsLocalChar(s[k]))
    && (forall k :: at < k < dot ==> IsDomainChar(s[k]))
    && (forall k :: dot < k < |s| ==> IsAsciiLetter(s[k]))
  }

  /** The whole text matches the pattern. */
  ghost predicate MatchesEmailPattern(s: string) {
    exists at: nat, dot: nat :: EmailSplit(s, at, dot)
  }

  /**
   * A hand-coded recogniser for the pattern: the local part runs up to the
   * first '@', the top-level part starts after the last '.'.
   */
  function MatchEmail(s: string): (b: bool)
    ensures b ==> MatchesEmailPattern(s)
  {
    match (IndexOf(s, '@'), LastIndexOf(s, '.'))
    case (Some(at), Some(dot)) => EmailSplit(s, at, dot)
    case _ => false
  }

  /** The recogniser accepts exactly what the pattern matches. */
  lemma MatchEmailComplete(s: string)
    requires MatchesEmailPattern(s)
    ensures MatchEmail(s)
  {
    var at: nat, dot: nat :| EmailSplit(s, at, dot);
    assert IndexOf(s, '@') == Some(at);
    assert LastIndexOf(s, '.') == Some(dot);
  }

  /** A matching address has exactly one '@', so the split is unique. */
  lemma EmailSplitUnique(s: string, at: nat, dot: nat)
    requires EmailSplit(s, at, dot)
    ensures forall k :: 0 <= k < |s| && s[k] == '@' ==> k == at
    ensures forall k :: 0 <= k < |s| && s[k] == '.' ==> k <= dot
  {
  }

  /** Any text the pattern matches is at least six characters long, so the lower limit of 3 never decides. */
  lemma PatternImpliesMinLength(s: string)
    requires MatchesEmailPattern(s)
    ensures |s| >= 6 > MinEmailLength
  {
  }

  // ---------------------------------------------------------------------------
  // IsValidEmail, NormalizeEmail
  // ---------------------------------------------------------------------------

  /** Lower-case, trim, then check the length window and the pattern. */
  function IsValidEmail(email: string): (b: bool)
    ensures var e := TrimSpace(ToLower(email));
      b <==> MinEmailLength <= |e| <= MaxEmailLength && MatchesEmailPattern(e)
  {
    var e := TrimSpace(ToLower(email));
    if |e| < MinEmailLength || |e| > MaxEmailLength then false
    else
      assert MatchesEmailPattern(e) ==> MatchEmail(e) by {
        if MatchesEmailPattern(e) {
          MatchEmailComplete(e);
        }
      }
      MatchEmail(e)
  }

  /** Trim, then lower-case. */
  function NormalizeEmail(email: string): (r: string)
    ensures r == TrimSpace(ToLower(email))
    ensures IsTrimmed(r) && |r| <= |email|
  {
    TrimSpaceToLower(email);
    ToLower(TrimSpace(email))
  }

  /** Normalising twice is normalising once. */
  lemma NormalizeEmailIdempotent(email: string)
    ensures NormalizeEmail(NormalizeEmail(email)) == NormalizeEmail(email)
  {
    var n := NormalizeEmail(email);
    TrimSpaceToLower(n);
    ToLowerIdempotent(TrimSpace(email));
    TrimSpaceOfTrimmed(n);
  }

  /** Validation does not change its verdict on a normalised address. */
  lemma ValidEmailNormalized(email: string)
    ensures IsValidEmail(NormalizeEmail(email)) == IsValidEmail(email)
  {
    NormalizeEmailIdempotent(email);
  }

  /**
   * An accepted address, once normalised, is a non-empty local part of
   * lower-case letters, digits and ._%+-, a single '@', at least one domain
   * character, a '.', and two or more lower-case letters to the end.
   */
  lemma AcceptedEmailShape(email: string)
    requires IsValidEmail(email)
    ensures var n := NormalizeEmail(email);
      exists at: nat, dot: nat ::
        && EmailSplit(n, at, dot)
        && (forall k :: 0 <= k < |n| && n[k] == '@' ==> k == at)
        && (forall k :: 0 <= k < |n| ==> !IsUpperAscii(n[k]))
  {
    var n := NormalizeEmail(email);
    var at: nat, dot: nat :| EmailSplit(n, at, dot);
    EmailSplitUnique(n, at, dot);
    LowerHasNoUpper(TrimSpace(email));
  }

  lemma LowerHasNoUpper(s: string)
    ensures forall k :: 0 <= k < |s| ==> !IsUpperAscii(ToLower(s)[k])
  {
  }

  /** Too short or too long after normalising: rejected whatever the pattern says. */
  lemma LengthWindow(email: string)
    requires |NormalizeEmail(email)| < MinEmailLength || |NormalizeEmail(email)| > MaxEmailLength
    ensures !IsValidEmail(email)
  {
  }

  // ---------------------------------------------------------------------------
  // NormalizeName, IsEmptyOrWhitespace
  // ---------------------------------------------------------------------------

  /** The word with its first letter upper-cased and the rest lower-cased. */
  function TitleWord(w: string): string {
    if w == [] then [] else [ToUpperChar(w[0])] + ToLower(w[1..])
  }

  /** Rune by rune: the first upper-cased, every other lower-cased. */
  lemma TitleWordChars(w: string)
    ensures |TitleWord(w)| == |w|
    ensures w != [] ==> TitleWord(w)[0] == ToUpperChar(w[0])
    ensures forall k :: 1 <= k < |w| ==> TitleWord(w)[k] == ToLowerChar(w[k])
  {
    if w != [] {
      var rest := ToLower(w[1..]);
      assert TitleWord(w) == [ToUpperChar(w[0])] + rest;
      forall k | 1 <= k < |w|
        ensures TitleWord(w)[k] == ToLowerChar(w[k])
      {
        assert TitleWord(w)[k] == rest[k - 1];
        assert w[1..][k - 1] == w[k];
      }
    }
  }

  function TitleWords(ws: seq<string>): (ts: seq<string>)
    ensures |ts| == |ws|
  {
    seq(|ws|, k requires 0 <= k < |ws| => TitleWord(ws[k]))
  }

  /** What NormalizeName returns: the title-cased fields of the trimmed name, joined by single spaces. */
  function NormalizedName(name: string): string {
    var trimmed := TrimSpace(name);
    if trimmed == [] then [] else Join(TitleWords(Fields(trimmed)), " ")
  }

  /**
   * Trims the name, splits it into fields, title-cases each field's runes in
   * place, and joins the fields with single spaces.
   */
  method NormalizeName(name: string) returns (r: string)
    ensures r == NormalizedName(name)
  {
    var trimmed := TrimSpace(name);
    if trimmed == [] {
      return [];
    }
    var fields := Fields(trimmed);
    var words := new string[|fields|](i requires 0 <= i < |fields| => fields[i]);
    assert words[..] == fields;
    TitleCaseWords(words);
    r := Join(words[..], " ");
  }

  /** Title-cases every word of the array in place. */
  method TitleCaseWords(words: array<string>)
    modifies words
    ensures words[..] == TitleWords(old(words[..]))
  {
    ghost var fields := words[..];
    for i := 0 to words.Length
      invariant forall k :: 0 <= k < i ==> words[k] == TitleWord(fields[k])
      invariant forall k :: i <= k < words.Length ==> words[k] == fields[k]
    {
      words[i] := TitleCaseWord(words[i]);
    }
    assert forall k :: 0 <= k < |fields| ==> words[..][k] == TitleWords(fields)[k];
  }

  /** A non-empty word goes through a rune buffer that is title-cased in place; an empty one is kept. */
  method TitleCaseWord(word: string) returns (t: string)
    ensures t == TitleWord(word)
  {
    t := word;
    if |word| > 0 {
      var runes := new char[|word|](j requires 0 <= j < |word| => word[j]);
      assert runes[..] == word;
      TitleCaseRunes(runes);
      t := runes[..];
    }
  }

  /** Upper-cases the first rune and lower-cases the others, in place. */
  method TitleCaseRunes(runes: array<char>)
    requires runes.Length > 0
    modifies runes
    ensures runes[..] == TitleWord(old(runes[..]))
  {
    ghost var word := runes[..];
    runes[0] := ToUpperChar(runes[0]);
    for j := 1 to runes.Length
      invariant runes[0] == ToUpperChar(word[0])
      invariant forall k :: 1 <= k < j ==> runes[k] == ToLowerChar(word[k])
      invariant forall k :: j <= k < runes.Length ==> runes[k] == word[k]
    {
      runes[j] := ToLowerChar(runes[j]);
    }
    TitleWordChars(word);
    assert runes[..] == TitleWord(word);
  }

  /** len(TrimSpace(s)) == 0 */
  function IsEmptyOrWhitespace(s: string): (b: bool)
    ensures b <==> AllSpace(s)
  {
    TrimSpaceEmpty(s);
    |TrimSpace(s)| == 0
  }

  // ---------------------------------------------------------------------------
  // Properties of NormalizedName
  // ---------------------------------------------------------------------------

  lemma ToUpperCharSpace(c: char)
    ensures IsSpace(ToUpperChar(c)) == IsSpace(c)
  {
    if IsLowerAscii(c) {
      assert 'A' <= ToUpperChar(c) <= 'Z';
    }
  }

  /** Title-casing keeps a field a field. */
  lemma TitleWordIsWord(w: string)
    requires IsWord(w)
    ensures IsWord(TitleWord(w))
  {
    var t := TitleWord(w);
    TitleWordChars(w);
    forall k | 0 <= k < |t| ensures !IsSpace(t[k]) {
      if k == 0 {
        ToUpperCharSpace(w[0]);
      } else {
        ToLowerCharSpace(w[k]);
      }
    }
  }

  lemma TitleWordsAreWords(ws: seq<string>)
    requires forall k :: 0 <= k < |ws| ==> IsWord(ws[k])
    ensures forall k :: 0 <= k < |ws| ==> IsWord(TitleWords(ws)[k])
  {
    forall k | 0 <= k < |ws| ensures IsWord(TitleWords(ws)[k]) {
      TitleWordIsWord(ws[k]);
    }
  }

  /** The fields of the result are the title-cased fields of the name, one for one. */
  lemma NormalizedNameFields(name: string)
    ensures Fields(NormalizedName(name)) == TitleWords(Fields(name))
    ensures |Fields(NormalizedName(name))| == |Fields(name)|
  {
    FieldsTrimSpace(name);
    var ws := Fields(TrimSpace(name));
    TitleWordsAreWords(ws);
    FieldsOfJoin(TitleWords(ws));
    if TrimSpace(name) == [] {
      TrimSpaceEmpty(name);
      FieldsEmpty(name);
    }
  }

  /** The result has no whitespace at its ends and is its fields joined by single spaces. */
  lemma NormalizedNameShape(name: string)
    ensures IsTrimmed(NormalizedName(name))
    ensures NormalizedName(name) == Join(Fields(NormalizedName(name)), " ")
  {
    if TrimSpace(name) != [] {
      var ts := TitleWords(Fields(TrimSpace(name)));
      assert NormalizedName(name) == Join(ts, " ");
      TitleWordsAreWords(Fields(TrimSpace(name)));
      JoinOfWords(ts);
      FieldsOfJoin(ts);
    }
  }

  /** The result is empty exactly when the name is blank. */
  lemma NormalizedNameEmpty(name: string)
    ensures NormalizedName(name) == [] <==> IsEmptyOrWhitespace(name)
  {
    var ws := Fields(TrimSpace(name));
    TitleWordsAreWords(ws);
    JoinOfWords(TitleWords(ws));
    TrimSpaceEmpty(name);
    FieldsTrimSpace(name);
    FieldsEmpty(name);
  }

  /** A non-empty word whose first character is not an ASCII lower-case letter and whose later characters are not ASCII upper-case letters. */
  predicate IsTitled(w: string) {
    w != [] && !IsLowerAscii(w[0]) && forall k :: 1 <= k < |w| ==> !IsUpperAscii(w[k])
  }

  lemma NormalizedNameTitled(name: string)
    ensures forall k :: 0 <= k < |Fields(NormalizedName(name))| ==> IsTitled(Fields(NormalizedName(name))[k])
  {
    NormalizedNameFields(name);
    var ws := Fields(name);
    forall k | 0 <= k < |ws|
      ensures IsTitled(TitleWords(ws)[k])
    {
      TitleWordTitled(ws[k]);
    }
  }

  /** A title-cased word starts with no lower-case letter and has no upper-case letter after that. */
  lemma TitleWordTitled(w: string)
    requires w != []
    ensures IsTitled(TitleWord(w))
  {
    TitleWordChars(w);
  }

  /** Title-casing a title-cased word changes nothing. */
  lemma TitleWordIdempotent(w: string)
    ensures TitleWord(TitleWord(w)) == TitleWord(w)
  {
  }

  /** Normalising a normalised name changes nothing. */
  lemma NormalizeNameIdempotent(name: string)
    ensures NormalizedName(NormalizedName(name)) == NormalizedName(name)
  {
    var n := NormalizedName(name);
    NormalizedNameShape(name);
    NormalizedNameFields(name);
    TrimSpaceOfTrimmed(n);
    var ws := Fields(n);
    if n != [] {
      assert TitleWords(ws) == ws by {
        forall k | 0 <= k < |ws| ensures TitleWords(ws)[k] == ws[k] {
          TitleWordIdempotent(Fields(name)[k]);
          FieldsTrimSpace(name);
        }
      }
    }
  }
}
