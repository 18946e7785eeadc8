/**
 * The tolerant JSON extraction of the shared chat-output parser: cleanMarkdown
 * turns raw model output into the text handed to the JSON decoder, in three
 * steps tried in order (first fenced code block, first brace-balanced object,
 * the whole text), and Parse hands a message with that cleaned content to the
 * decoder. Extraction never fails: every path yields a string.
 */
module Parser {
  import opened Wrappers
  import opened Text

  // ---------------------------------------------------------------------------
  // Step 1: the fence pattern (?s)```(?:json)?\s*(.*?)\s*```
  // ---------------------------------------------------------------------------

  /** Three backticks start at i. */
  predicate FenceAt(s: string, i: nat) {
    i + 3 <= |s| && s[i] == '`' && s[i + 1] == '`' && s[i + 2] == '`'
  }

  /** The lower-case tag "json" starts at i (only this spelling is optional in the pattern). */
  predicate JsonTagAt(s: string, i: nat) {
    i + 4 <= |s| && s[i] == 'j' && s[i + 1] == 's' && s[i + 2] == 'o' && s[i + 3] == 'n'
  }

  /** First three-backtick fence starting at or after from. */
  function FindFence(s: string, from: nat): (r: Option<nat>)
    ensures r.Some? ==> from <= r.value && FenceAt(s, r.value)
    ensures r.Some? ==> forall k :: from <= k < r.value ==> !FenceAt(s, k)
    ensures r.None? ==> forall k :: from <= k ==> !FenceAt(s, k)
    decreases |s| - from
  {
    if from + 3 > |s| then None
    else if FenceAt(s, from) then Some(from)
    else FindFence(s, from + 1)
  }

  /** Where the text after an opening fence at p begins: past "json" when the tag is there. */
  function TagEnd(s: string, p: nat): (b: nat)
    requires p + 3 <= |s|
    ensures b <= |s|
    ensures b == p + 3 || (b == p + 7 && JsonTagAt(s, p + 3))
  {
    if JsonTagAt(s, p + 3) then p + 7 else p + 3
  }

  /** Greedy \s*: index of the first non-\s character at or after i. */
  function SkipRegexSpace(s: string, i: nat): (k: nat)
    requires i <= |s|
    ensures i <= k <= |s|
    ensures forall m :: i <= m < k ==> IsRegexSpace(s[m])
    ensures k < |s| ==> !IsRegexSpace(s[k])
    decreases |s| - i
  {
    if i < |s| && IsRegexSpace(s[i]) then SkipRegexSpace(s, i + 1) else i
  }

  /** Start of the run of \s characters that ends at j, never going below lo. */
  function SkipRegexSpaceBack(s: string, lo: nat, j: nat): (k: nat)
    requires lo <= j <= |s|
    ensures lo <= k <= j
    ensures forall m :: k <= m < j ==> IsRegexSpace(s[m])
    ensures lo < k ==> !IsRegexSpace(s[k - 1])
    decreases j
  {
    if lo < j && IsRegexSpace(s[j - 1]) then SkipRegexSpaceBack(s, lo, j - 1) else j
  }

  /**
   * The positions of one match of the fence pattern: the opening fence, where
   * the text after the optional tag begins, the capture group
   * [groupStart, groupEnd), and the closing fence.
   */
  datatype FenceMatch = FenceMatch(open: nat, body: nat, groupStart: nat, groupEnd: nat, close: nat)

  /** m is one way the fence pattern matches s. */
  predicate IsFenceMatch(s: string, m: FenceMatch) {
    && FenceAt(s, m.open)
    && FenceAt(s, m.close)
    && (m.body == m.open + 3 || (m.body == m.open + 7 && JsonTagAt(s, m.open + 3)))
    && m.body <= m.groupStart <= m.groupEnd <= m.close
    && (forall k :: m.body <= k < m.groupStart ==> IsRegexSpace(s[k]))
    && (forall k :: m.groupEnd <= k < m.close ==> IsRegexSpace(s[k]))
  }

  /**
   * The order in which the leftmost-first search of Go's regexp package tries
   * matches: an earlier opening fence, then the optional tag taken, then a
   * longer leading \s*, then a shorter lazy group, then a longer trailing \s*.
   */
  predicate TriedFirst(m: FenceMatch, n: FenceMatch) {
    || m.open < n.open
    || (m.open == n.open && m.body > n.body)
    || (m.open == n.open && m.body == n.body && m.groupStart > n.groupStart)
    || (m.open == n.open && m.body == n.body && m.groupStart == n.groupStart && m.groupEnd < n.groupEnd)
    || (m.open == n.open && m.body == n.body && m.groupStart == n.groupStart && m.groupEnd == n.groupEnd
        && m.close > n.close)
  }

  /** Neither the optional tag nor the \s run after it contains a backtick, so the closing fence lies past both. */
  lemma CaptureStartsBeforeClose(s: string, p: nat, q: nat)
    requires p + 3 <= q && FenceAt(s, q)
    ensures SkipRegexSpace(s, TagEnd(s, p)) <= q
  {
  }

  /** FindStringSubmatch with the fence pattern: the match it reports, if any. */
  function MatchFence(s: string): (r: Option<FenceMatch>)
    ensures r.Some? ==> IsFenceMatch(s, r.value)
  {
    match FindFence(s, 0)
    case None => None
    case Some(p) =>
      match FindFence(s, p + 3)
      case None => None
      case Some(q) =>
        var b := TagEnd(s, p);
        var c := SkipRegexSpace(s, b);
        CaptureStartsBeforeClose(s, p, q);
        Some(FenceMatch(p, b, c, SkipRegexSpaceBack(s, c, q), q))
  }

  /**
   * The match MatchFence reports is the one leftmost-first search finds: every
   * other match of the pattern comes later in the search order.
   */
  lemma {:induction false} MatchFenceIsLeftmostFirst(s: string, n: FenceMatch)
    requires IsFenceMatch(s, n)
    ensures MatchFence(s).Some?
    ensures MatchFence(s).value == n || TriedFirst(MatchFence(s).value, n)
    ensures MatchFence(s).value.close <= n.close
  {
    var p := FindFence(s, 0);
    assert p.Some? && p.value <= n.open;
    var q := FindFence(s, p.value + 3);
    assert q.Some? && q.value <= n.close;
  }

  /** The pattern matches exactly when some fence is followed, three or more characters on, by another. */
  lemma FenceMatchExists(s: string)
    ensures MatchFence(s).Some? <==> exists p: nat, q: nat :: FenceAt(s, p) && p + 3 <= q && FenceAt(s, q)
  {
    if MatchFence(s).Some? {
      var m := MatchFence(s).value;
      assert FenceAt(s, m.open) && m.open + 3 <= m.close && FenceAt(s, m.close);
    }
    if exists p: nat, q: nat :: FenceAt(s, p) && p + 3 <= q && FenceAt(s, q) {
      var p: nat, q: nat :| FenceAt(s, p) && p + 3 <= q && FenceAt(s, q);
      MatchFenceIsLeftmostFirst(s, FenceMatch(p, p + 3, p + 3, q, q));
    }
  }

  // ---------------------------------------------------------------------------
  // Step 2: the brace-depth scan
  // ---------------------------------------------------------------------------

  /** Occurrences of c in s[i..j]. */
  function Count(s: string, i: nat, j: nat, c: char): nat
    requires i <= j <= |s|
    decreases j
  {
    if i == j then 0 else Count(s, i, j - 1, c) + (if s[j - 1] == c then 1 else 0)
  }

  /** The brace count after scanning s[i..j]: opening minus closing braces, quotes ignored. */
  function Depth(s: string, i: nat, j: nat): int
    requires i <= j <= |s|
  {
    Count(s, i, j, '{') - Count(s, i, j, '}')
  }

  /** Scanning from start, having reached i: one past the first '}' after i that brings the count back to zero. */
  function CloseFrom(s: string, start: nat, i: nat): (r: Option<nat>)
    requires start <= i <= |s|
    ensures r.Some? ==> i < r.value <= |s| && s[r.value - 1] == '}' && Depth(s, start, r.value) == 0
    ensures r.Some? ==> forall k :: i < k < r.value ==> !(s[k - 1] == '}' && Depth(s, start, k) == 0)
    ensures r.None? ==> forall k :: i < k <= |s| ==> !(s[k - 1] == '}' && Depth(s, start, k) == 0)
    decreases |s| - i
  {
    if i == |s| then None
    else if s[i] == '}' && Depth(s, start, i + 1) == 0 then Some(i + 1)
    else CloseFrom(s, start, i + 1)
  }

  /** Until a closing brace brings it back to zero, the count from an opening brace stays positive. */
  lemma {:induction false} DepthPositive(s: string, start: nat, k: nat)
    requires start < k <= |s| && s[start] == '{'
    requires forall j :: start < j <= k ==> !(s[j - 1] == '}' && Depth(s, start, j) == 0)
    ensures Depth(s, start, k) > 0
    decreases k
  {
    DepthStep(s, start, k - 1);
    if k > start + 1 {
      DepthPositive(s, start, k - 1);
    }
  }

  /** One more character moves the count by one for a brace and leaves it alone otherwise. */
  lemma DepthStep(s: string, i: nat, j: nat)
    requires i <= j < |s|
    ensures Depth(s, i, j + 1) == Depth(s, i, j) + (if s[j] == '{' then 1 else if s[j] == '}' then -1 else 0)
  {
  }

  /**
   * From an opening brace, the scan stops at the first point where the count
   * returns to zero; if it never stops, the count stays positive to the end.
   */
  lemma FirstReturnToZero(s: string, start: nat)
    requires start < |s| && s[start] == '{'
    ensures CloseFrom(s, start, start).Some? ==>
      var e := CloseFrom(s, start, start).value;
      && Depth(s, start, e) == 0
      && forall k :: start < k < e ==> Depth(s, start, k) > 0
    ensures CloseFrom(s, start, start).None? ==> forall k :: start < k <= |s| ==> Depth(s, start, k) > 0
  {
    var r := CloseFrom(s, start, start);
    if r.Some? {
      forall k | start < k < r.value ensures Depth(s, start, k) > 0 {
        DepthPositive(s, start, k);
      }
    } else {
      forall k | start < k <= |s| ensures Depth(s, start, k) > 0 {
        DepthPositive(s, start, k);
      }
    }
  }

  // ---------------------------------------------------------------------------
  // cleanMarkdown
  // ---------------------------------------------------------------------------

  /** What cleanMarkdown returns for content. */
  function Clean(content: string): (r: string)
    ensures IsTrimmed(r)
  {
    match MatchFence(content)
    case Some(m) => TrimSpace(content[m.groupStart..m.groupEnd])
    case None =>
      match IndexOf(content, '{')
      case None => TrimSpace(content)
      case Some(start) =>
        match CloseFrom(content, start, start)
        case Some(e) => TrimSpace(content[start..e])
        case None => TrimSpace(content)
  }

  /** cleanMarkdown: fenced block first, then the first balanced object, then the whole text. */
  method CleanMarkdown(content: string) returns (r: string)
    ensures r == Clean(content)
  {
    var matches := MatchFence(content);
    if matches.Some? {
      return TrimSpace(content[matches.value.groupStart..matches.value.groupEnd]);
    }
    var startIdx := IndexOf(content, '{');
    if startIdx.Some? {
      var start := startIdx.value;
      var braceCount := 0;
      var i := start;
      while i < |content|
        invariant start <= i <= |content|
        invariant braceCount == Depth(content, start, i)
        invariant CloseFrom(content, start, start) == CloseFrom(content, start, i)
      {
        ScanStep(content, start, i);
        if content[i] == '{' {
          braceCount := braceCount + 1;
        } else if content[i] == '}' {
          braceCount := braceCount - 1;
          if braceCount == 0 {
            CleanOnClose(content, start, i + 1);
            return TrimSpace(content[start..i + 1]);
          }
        }
        i := i + 1;
      }
    }
    CleanFallback(content);
    return TrimSpace(content);
  }

  /** One character of the scan: how the count moves, and where the search for the closing brace goes on. */
  lemma ScanStep(s: string, start: nat, i: nat)
    requires start <= i < |s|
    ensures Depth(s, start, i + 1) == Depth(s, start, i) + (if s[i] == '{' then 1 else if s[i] == '}' then -1 else 0)
    ensures CloseFrom(s, start, i) ==
      if s[i] == '}' && Depth(s, start, i + 1) == 0 then Some(i + 1) else CloseFrom(s, start, i + 1)
  {
    DepthStep(s, start, i);
  }

  lemma CleanOnClose(s: string, start: nat, e: nat)
    requires MatchFence(s).None? && IndexOf(s, '{') == Some(start)
    requires start < e <= |s| && CloseFrom(s, start, start) == Some(e)
    ensures Clean(s) == TrimSpace(s[start..e])
  {
  }

  lemma CleanFallback(s: string)
    requires MatchFence(s).None?
    requires IndexOf(s, '{').None? || CloseFrom(s, IndexOf(s, '{').value, IndexOf(s, '{').value).None?
    ensures Clean(s) == TrimSpace(s)
  {
  }

  // ---------------------------------------------------------------------------
  // Parse: clean the content, then hand a fresh message to the decoder
  // ---------------------------------------------------------------------------

  datatype ToolCall = ToolCall(id: string, name: string, arguments: string)

  /** The chat message fields the parser reads or copies. */
  datatype Message = Message(
    role: string,
    content: string,
    toolCalls: seq<ToolCall>,
    name: string,
    toolCallId: string)

  /** A decoded value with the decoder's error, if any. */
  datatype Decoded<T> = Decoded(value: T, err: Option<string>)

  /**
   * The message handed to the decoder: role and tool calls copied, content
   * cleaned, every other field left empty.
   */
  function CleanedMessage(m: Message): (c: Message)
    ensures c.role == m.role && c.toolCalls == m.toolCalls
    ensures c.content == Clean(m.content) && IsTrimmed(c.content)
    ensures c.name == [] && c.toolCallId == []
  {
    Message(m.role, Clean(m.content), m.toolCalls, [], [])
  }

  /**
   * A missing message yields the zero value and no error; otherwise the
   * decoder's answer on the cleaned message is returned as it is.
   */
  method Parse<T>(msg: Option<Message>, zero: T, decode: Message -> Decoded<T>) returns (out: Decoded<T>)
    ensures msg.None? ==> out == Decoded(zero, None)
    ensures msg.Some? ==> out == decode(CleanedMessage(msg.value))
  {
    if msg.None? {
      return Decoded(zero, None);
    }
    var m := msg.value;
    var content := CleanMarkdown(m.content);
    var cleaned := Message(m.role, content, m.toolCalls, [], []);
    out := decode(cleaned);
  }
}

module ParserProperties {
  import opened Wrappers
  import opened Text
  import opened Parser

  // ---------------------------------------------------------------------------
  // The fenced-block path
  // ---------------------------------------------------------------------------

  /**
   * With a fence match, the result is the trimmed text between the first fence
   * (past an optional "json" tag) and the first fence at least three
   * characters after it.
   */
  lemma FencedBlockExtracted(s: string)
    requires MatchFence(s).Some?
    ensures var m := MatchFence(s).value;
      && (forall k :: 0 <= k < m.open ==> !FenceAt(s, k))
      && m.open + 3 <= m.close
      && (forall k :: m.open + 3 <= k < m.close ==> !FenceAt(s, k))
      && m.body == (if JsonTagAt(s, m.open + 3) then m.open + 7 else m.open + 3)
      && Clean(s) == TrimSpace(s[m.body..m.close])
  {
    FencedBlockText(s);
  }

  lemma FencedBlockText(s: string)
    requires MatchFence(s).Some?
    ensures var m := MatchFence(s).value;
      Clean(s) == TrimSpace(s[m.body..m.close])
  {
    var m := MatchFence(s).value;
    var x, y, z := s[m.body..m.groupStart], s[m.groupStart..m.groupEnd], s[m.groupEnd..m.close];
    assert s[m.body..m.close] == x + y + z;
    assert AllSpace(x) && AllSpace(z);
    TrimSpaceAround(x, y, z);
  }

  /** A tag that does not begin with the lower-case "json" is not stripped: it opens the extracted text. */
  lemma OtherTagKept(s: string)
    requires MatchFence(s).Some?
    requires var p := MatchFence(s).value.open;
      p + 3 < |s| && !JsonTagAt(s, p + 3) && !IsSpace(s[p + 3]) && s[p + 3] != '`'
    ensures var p := MatchFence(s).value.open;
      Clean(s) != [] && Clean(s)[0] == s[p + 3]
  {
    var m := MatchFence(s).value;
    var g := s[m.groupStart..m.groupEnd];
    assert m.groupStart == m.open + 3;
    assert m.groupStart < m.close;
    assert m.groupStart < m.groupEnd;
    assert g[0] == s[m.open + 3];
    assert SkipSpace(g, 0) == 0;
  }

  /**
   * A tag that begins with "json" but goes on (jsonc, json5, jsonl) loses only
   * those four letters: the character after them opens the extracted text.
   */
  lemma JsonPrefixTagCut(s: string)
    requires MatchFence(s).Some?
    requires var p := MatchFence(s).value.open;
      p + 7 < |s| && JsonTagAt(s, p + 3) && !IsSpace(s[p + 7]) && s[p + 7] != '`'
    ensures var p := MatchFence(s).value.open;
      Clean(s) != [] && Clean(s)[0] == s[p + 7]
  {
    var m := MatchFence(s).value;
    var g := s[m.groupStart..m.groupEnd];
    assert m.groupStart == m.open + 7;
    assert m.groupStart < m.close;
    assert m.groupStart < m.groupEnd;
    assert g[0] == s[m.open + 7];
    assert SkipSpace(g, 0) == 0;
  }

  /**
   * Text glued to the "json" tag is kept: a block opening with "```json"
   * directly followed by trimmed, backtick-free text gives that text.
   */
  lemma JsonTagGlued(obj: string)
    requires forall k :: 0 <= k < |obj| ==> obj[k] != '`'
    requires IsTrimmed(obj)
    ensures Clean("```json" + obj + "\n```") == obj
  {
    var s := "```json" + obj + "\n```";
    GluedFences(obj, s);
    GluedBody(obj, s);
    FencedBodyEndsInNewline(s, obj);
  }

  lemma GluedFences(obj: string, s: string)
    requires forall k :: 0 <= k < |obj| ==> obj[k] != '`'
    requires s == "```json" + obj + "\n```"
    ensures MatchFence(s).Some?
    ensures MatchFence(s).value.body == 7 && MatchFence(s).value.close == 7 + |obj| + 1
  {
    FenceFoundAt(s, 0, 0);
    assert forall j :: 7 <= j < 7 + |obj| ==> s[j] == obj[j - 7];
    assert forall j :: 3 <= j < 7 ==> s[j] == "json"[j - 3];
    FenceFoundAt(s, 3, 7 + |obj| + 1);
    assert JsonTagAt(s, 3);
  }

  lemma GluedBody(obj: string, s: string)
    requires s == "```json" + obj + "\n```"
    ensures s[7..7 + |obj| + 1] == obj + "\n"
  {
    var t := s[7..7 + |obj| + 1];
    forall k | 0 <= k < |obj|
      ensures t[k] == obj[k]
    {
      assert t[k] == s[7 + k];
    }
    assert t[|obj|] == s[7 + |obj|] == '\n';
  }

  lemma FencedBodyEndsInNewline(s: string, obj: string)
    requires IsTrimmed(obj)
    requires MatchFence(s).Some?
    requires var m := MatchFence(s).value; s[m.body..m.close] == obj + "\n"
    ensures Clean(s) == obj
  {
    FencedBlockText(s);
    assert AllSpace("\n");
    var m := MatchFence(s).value;
    assert s[m.body..m.close] == [] + obj + "\n";
    TrimSpaceAround([], obj, "\n");
    TrimSpaceOfTrimmed(obj);
  }

  /** The block "```jsonc" around {} gives "c", a newline and {}. */
  lemma JsonPrefixTagSample(s: string)
    requires s == "```jsonc\n{}\n```"
    ensures Clean(s) == "c\n{}"
  {
    var y := "c\n{}";
    assert y[0] == 'c' && y[1] == '\n' && y[2] == '{' && y[3] == '}';
    JsonTagGlued(y);
    GluedSample(s, y);
  }

  lemma GluedSample(s: string, y: string)
    requires s == "```jsonc\n{}\n```" && y == "c\n{}"
    ensures s == "```json" + y + "\n```"
  {
  }

  /** Anything after the closing fence of the reported match, later fenced blocks included, is ignored. */
  lemma LaterTextIgnored(s: string, t: string)
    requires MatchFence(s).Some?
    ensures var m := MatchFence(s).value;
      Clean(s[..m.close + 3] + t) == Clean(s)
  {
    var m := MatchFence(s).value;
    var u := s[..m.close + 3] + t;
    SameMatchAfterCut(s, t);
    assert u[m.groupStart..m.groupEnd] == s[m.groupStart..m.groupEnd];
  }

  /** Cutting the text after the closing fence and appending anything leaves the reported match as it was. */
  lemma SameMatchAfterCut(s: string, t: string)
    requires MatchFence(s).Some?
    ensures var m := MatchFence(s).value;
      MatchFence(s[..m.close + 3] + t) == Some(m)
  {
    var m := MatchFence(s).value;
    var n := m.close + 3;
    var u := s[..n] + t;
    assert forall k :: 0 <= k < n ==> u[k] == s[k];
    MatchOnCommonPrefix(s, u, m, n);
    MatchFenceIsLeftmostFirst(u, m);
    var m' := MatchFence(u).value;
    MatchOnCommonPrefix(u, s, m', n);
    MatchFenceIsLeftmostFirst(s, m');
    TriedFirstAsymmetric(m, m');
  }

  /** No two matches are each tried before the other. */
  lemma TriedFirstAsymmetric(a: FenceMatch, b: FenceMatch)
    ensures !(TriedFirst(a, b) && TriedFirst(b, a))
  {
  }

  /** Whether m is a match depends only on the text up to the end of its closing fence. */
  lemma MatchOnCommonPrefix(s: string, u: string, m: FenceMatch, n: nat)
    requires IsFenceMatch(s, m)
    requires m.close + 3 <= n <= |s| && n <= |u|
    requires forall k :: 0 <= k < n ==> u[k] == s[k]
    ensures IsFenceMatch(u, m)
  {
    assert FenceAt(u, m.open) && FenceAt(u, m.close);
    if m.body == m.open + 7 {
      assert JsonTagAt(u, m.open + 3);
    }
    assert forall k :: m.body <= k < m.groupStart ==> IsRegexSpace(u[k]);
    assert forall k :: m.groupEnd <= k < m.close ==> IsRegexSpace(u[k]);
  }

  // ---------------------------------------------------------------------------
  // The brace path and the fallback
  // ---------------------------------------------------------------------------

  /** start holds the first '{' of s. */
  predicate FirstOpenBrace(s: string, start: nat) {
    start < |s| && s[start] == '{' && forall k :: 0 <= k < start ==> s[k] != '{'
  }

  /**
   * s[start..e] begins at the first '{', holds as many '{' as '}', and every
   * shorter non-empty prefix of it holds more '{' than '}'.
   */
  predicate BalancedObject(s: string, start: nat, e: nat) {
    && FirstOpenBrace(s, start)
    && start < e <= |s|
    && Count(s, start, e, '{') == Count(s, start, e, '}')
    && forall k :: start < k < e ==> Count(s, start, k, '{') > Count(s, start, k, '}')
  }

  /** Without a fence match, a balanced object from the first '{' is extracted as it stands, ending in '}'. */
  lemma BalancedObjectExtracted(s: string, start: nat, e: nat)
    requires MatchFence(s).None?
    requires BalancedObject(s, start, e)
    ensures Clean(s) == s[start..e]
    ensures s[e - 1] == '}'
  {
    assert IndexOf(s, '{') == Some(start);
    FirstReturnToZero(s, start);
    assert Depth(s, start, e) == 0;
    assert forall k :: start < k < e ==> Depth(s, start, k) > 0;
    var r := CloseFrom(s, start, start);
    assert r == Some(e);
    var o := s[start..e];
    assert o[0] == '{' && o[|o| - 1] == '}';
    TrimSpaceOfTrimmed(o);
  }

  /** Without a fence match and without a balanced object, the result is the trimmed input: no error arises. */
  lemma NoObjectFallsBack(s: string)
    requires MatchFence(s).None?
    requires forall start: nat, e: nat :: !BalancedObject(s, start, e)
    ensures Clean(s) == TrimSpace(s)
  {
    var i := IndexOf(s, '{');
    if i.Some? {
      FirstReturnToZero(s, i.value);
      var r := CloseFrom(s, i.value, i.value);
      if r.Some? {
        forall k | i.value < k < r.value
          ensures Count(s, i.value, k, '{') > Count(s, i.value, k, '}')
        {
          assert Depth(s, i.value, k) > 0;
        }
        assert BalancedObject(s, i.value, r.value);
      }
    }
  }

  /** Once the count from the first '{' never returns to zero, the input comes back trimmed. */
  lemma UnbalancedFallsBack(s: string, start: nat)
    requires MatchFence(s).None?
    requires FirstOpenBrace(s, start)
    requires forall k :: start < k <= |s| ==> Count(s, start, k, '{') > Count(s, start, k, '}')
    ensures Clean(s) == TrimSpace(s)
  {
    assert IndexOf(s, '{') == Some(start);
  }

  /** An input free of backticks that is one balanced object from its first character is returned unchanged. */
  lemma WholeObjectUnchanged(s: string)
    requires forall k :: 0 <= k < |s| ==> s[k] != '`'
    requires BalancedObject(s, 0, |s|)
    ensures Clean(s) == s
  {
    assert FindFence(s, 0).None?;
    BalancedObjectExtracted(s, 0, |s|);
    assert s[0..|s|] == s;
  }

  /**
   * The first '}' after the opening brace closes the object when nothing
   * between them is a brace, whatever backtick-free text follows: quotes are
   * not looked at.
   */
  lemma FirstCloseWins(x: string, y: string)
    requires forall k :: 0 <= k < |x| ==> x[k] != '{' && x[k] != '}' && x[k] != '`'
    requires forall k :: 0 <= k < |y| ==> y[k] != '`'
    ensures Clean("{" + x + "}" + y) == TrimSpace("{" + x + "}")
  {
    var s := "{" + x + "}" + y;
    var e := |x| + 2;
    assert forall k :: 0 <= k < |s| ==> s[k] != '`';
    NoBacktickNoFence(s);
    forall k | 0 < k < e
      ensures Count(s, 0, k, '{') == 1 && Count(s, 0, k, '}') == 0
    {
      OpenPrefixCounts(s, x, k);
    }
    OpenPrefixCounts(s, x, e - 1);
    assert s[e - 1] == '}';
    assert BalancedObject(s, 0, e);
    BalancedObjectExtracted(s, 0, e);
    assert s[0..e] == "{" + x + "}";
  }

  lemma {:induction false} OpenPrefixCounts(s: string, x: string, k: nat)
    requires |x| + 2 <= |s| && s[0] == '{' && s[1..|x| + 1] == x
    requires forall j :: 0 <= j < |x| ==> x[j] != '{' && x[j] != '}'
    requires 0 < k <= |x| + 1
    ensures Count(s, 0, k, '{') == 1 && Count(s, 0, k, '}') == 0
    decreases k
  {
    if k > 1 {
      OpenPrefixCounts(s, x, k - 1);
      assert s[k - 1] == x[k - 2];
    }
  }

  lemma NoBacktickNoFence(s: string)
    requires forall k :: 0 <= k < |s| ==> s[k] != '`'
    ensures MatchFence(s).None?
  {
    assert FindFence(s, 0).None?;
  }

  /** Braces inside a quoted JSON string still move the count: the scan stops inside the string. */
  lemma QuotedBracesCount(s: string)
    requires s == "{\"a\": \"}\"}"
    ensures Clean(s) == "{\"a\": \"}"
  {
    var x, y := "\"a\": \"", "\"}";
    QuotedParts(s, x, y);
    FirstCloseWins(x, y);
    TrimSpaceOfTrimmed("{" + x + "}");
  }

  lemma QuotedParts(s: string, x: string, y: string)
    requires s == "{\"a\": \"}\"}" && x == "\"a\": \"" && y == "\"}"
    ensures s == "{" + x + "}" + y && "{" + x + "}" == "{\"a\": \"}"
    ensures IsTrimmed("{" + x + "}")
    ensures forall k :: 0 <= k < |x| ==> x[k] != '{' && x[k] != '}' && x[k] != '`'
    ensures forall k :: 0 <= k < |y| ==> y[k] != '`'
  {
  }

  // ---------------------------------------------------------------------------
  // Every path
  // ---------------------------------------------------------------------------

  /** On every path the result is one contiguous piece of the input with no whitespace at either end. */
  lemma CleanIsTrimmedSlice(s: string)
    ensures IsTrimmed(Clean(s))
    ensures exists i: nat, j: nat :: i <= j <= |s| && Clean(s) == s[i..j]
  {
    match MatchFence(s) {
      case Some(m) =>
        TrimmedSliceOfSlice(s, m.groupStart, m.groupEnd);
      case None =>
        match IndexOf(s, '{') {
          case None =>
            TrimmedSliceOfSlice(s, 0, |s|);
          case Some(start) =>
            match CloseFrom(s, start, start) {
              case Some(e) =>
                TrimmedSliceOfSlice(s, start, e);
              case None =>
                TrimmedSliceOfSlice(s, 0, |s|);
            }
        }
    }
  }

  /** Trimming a slice of s leaves a slice of s. */
  lemma TrimmedSliceOfSlice(s: string, a: nat, b: nat)
    requires a <= b <= |s|
    ensures exists i: nat, j: nat :: i <= j <= |s| && TrimSpace(s[a..b]) == s[i..j]
  {
    var x := s[a..b];
    var i := SkipSpace(x, 0);
    var j := SkipSpaceBack(x, i, |x|);
    assert TrimSpace(x) == x[i..j];
    forall k | 0 <= k < j - i
      ensures x[i..j][k] == s[a + i..a + j][k]
    {
      assert x[i..j][k] == x[i + k] == s[a + i + k];
    }
    assert x[i..j] == s[a + i..a + j];
  }

  // ---------------------------------------------------------------------------
  // Worked cases
  // ---------------------------------------------------------------------------

  /** The first fence at or after from is at k when no backtick comes between. */
  lemma FenceFoundAt(s: string, from: nat, k: nat)
    requires from <= k && FenceAt(s, k)
    requires forall j :: from <= j < k ==> s[j] != '`'
    ensures FindFence(s, from) == Some(k)
  {
  }

  /** A json-tagged fenced block is extracted whatever prose surrounds it. */
  lemma FencedJsonAmidProse(before: string, obj: string, after: string)
    requires forall k :: 0 <= k < |before| ==> before[k] != '`'
    requires forall k :: 0 <= k < |obj| ==> obj[k] != '`'
    requires IsTrimmed(obj)
    ensures Clean(before + "```json\n" + obj + "\n```" + after) == obj
  {
    var s := before + "```json\n" + obj + "\n```" + after;
    ProseFences(before, obj, after);
    ProseBody(before, obj, after, s);
    FencedBodyIs(s, obj);
  }

  lemma FencedBodyIs(s: string, obj: string)
    requires IsTrimmed(obj)
    requires MatchFence(s).Some?
    requires var m := MatchFence(s).value; s[m.body..m.close] == "\n" + obj + "\n"
    ensures Clean(s) == obj
  {
    FencedBlockText(s);
    assert AllSpace("\n");
    TrimSpaceAround("\n", obj, "\n");
    TrimSpaceOfTrimmed(obj);
  }

  lemma ProseBody(before: string, obj: string, after: string, s: string)
    requires s == before + "```json\n" + obj + "\n```" + after
    ensures s[|before| + 7..|before| + 8 + |obj| + 1] == "\n" + obj + "\n"
  {
    var p := |before|;
    var t := s[p + 7..p + 8 + |obj| + 1];
    assert |t| == |obj| + 2;
    assert t[0] == s[p + 7] == '\n';
    assert t[|obj| + 1] == s[p + 8 + |obj|] == '\n';
    forall k | 0 <= k < |obj|
      ensures t[k + 1] == obj[k]
    {
      assert t[k + 1] == s[p + 8 + k];
    }
    assert t == "\n" + obj + "\n";
  }

  lemma ProseFences(before: string, obj: string, after: string)
    requires forall k :: 0 <= k < |before| ==> before[k] != '`'
    requires forall k :: 0 <= k < |obj| ==> obj[k] != '`'
    ensures var s := before + "```json\n" + obj + "\n```" + after;
      && MatchFence(s).Some?
      && MatchFence(s).value.open == |before|
      && MatchFence(s).value.body == |before| + 7
      && MatchFence(s).value.close == |before| + 8 + |obj| + 1
  {
    var s := before + "```json\n" + obj + "\n```" + after;
    var p, q := |before|, |before| + 8 + |obj| + 1;
    assert forall j :: 0 <= j < p ==> s[j] == before[j];
    FenceFoundAt(s, 0, p);
    assert forall j :: p + 8 <= j < p + 8 + |obj| ==> s[j] == obj[j - p - 8];
    assert s[p + 3..p + 8] == "json\n";
    assert forall j :: p + 3 <= j < p + 8 ==> s[j] == "json\n"[j - p - 3];
    FenceFoundAt(s, p + 3, q);
    assert JsonTagAt(s, p + 3);
  }

  /** Re-running extraction on its own output can change it when the output came from a fenced block. */
  lemma FencedResultNotStable(s: string)
    requires s == "```json\nx{}\n```"
    ensures Clean(s) == "x{}"
    ensures Clean(Clean(s)) == "{}"
  {
    var x := "x{}";
    assert x[0] == 'x' && x[1] == '{' && x[2] == '}';
    FencedJsonAmidProse([], x, []);
    FencedSample(s, x);
    UnfencedObject();
  }

  lemma FencedSample(s: string, x: string)
    requires s == "```json\nx{}\n```" && x == "x{}"
    ensures s == [] + "```json\n" + x + "\n```" + []
  {
  }

  lemma UnfencedObject()
    ensures Clean("x{}") == "{}"
  {
    var t := "x{}";
    assert FindFence(t, 0).None?;
    assert BalancedObject(t, 1, 3);
    BalancedObjectExtracted(t, 1, 3);
  }

  // ---------------------------------------------------------------------------
  // Stability of the result outside the fenced path
  // ---------------------------------------------------------------------------

  /** Counting in a slice is counting in the original at shifted positions. */
  lemma {:induction false} CountOfSlice(s: string, a: nat, b: nat, i: nat, j: nat, c: char)
    requires a <= b <= |s| && i <= j <= b - a
    ensures Count(s[a..b], i, j, c) == Count(s, a + i, a + j, c)
    decreases j
  {
    if i < j {
      CountOfSlice(s, a, b, i, j - 1, c);
    }
  }

  /** A slice of a text without a fence match has none either. */
  lemma NoFenceInSlice(s: string, a: nat, b: nat)
    requires a <= b <= |s|
    requires MatchFence(s).None?
    ensures MatchFence(s[a..b]).None?
  {
    var r := s[a..b];
    FenceMatchExists(s);
    FenceMatchExists(r);
    if MatchFence(r).Some? {
      var p: nat, q: nat :| FenceAt(r, p) && p + 3 <= q && FenceAt(r, q);
      assert FenceAt(s, a + p) && FenceAt(s, a + q);
    }
  }

  /** Without a fence match, extracting again from the result gives the result back. */
  lemma CleanStableWithoutFence(s: string)
    requires MatchFence(s).None?
    ensures Clean(Clean(s)) == Clean(s)
  {
    var i := IndexOf(s, '{');
    if i.Some? && CloseFrom(s, i.value, i.value).Some? {
      StableOnObject(s, i.value, CloseFrom(s, i.value, i.value).value);
    } else {
      StableOnFallback(s);
    }
  }

  lemma StableOnObject(s: string, start: nat, e: nat)
    requires MatchFence(s).None?
    requires IndexOf(s, '{') == Some(start)
    requires CloseFrom(s, start, start) == Some(e)
    ensures Clean(Clean(s)) == Clean(s)
  {
    ClosedIsBalanced(s, start, e);
    BalancedObjectExtracted(s, start, e);
    var r := s[start..e];
    NoFenceInSlice(s, start, e);
    SliceBalanced(s, start, e);
    BalancedObjectExtracted(r, 0, |r|);
    assert r[0..|r|] == r;
  }

  /** The object the brace scan closes from the first '{' is balanced. */
  lemma ClosedIsBalanced(s: string, start: nat, e: nat)
    requires IndexOf(s, '{') == Some(start)
    requires CloseFrom(s, start, start) == Some(e)
    ensures BalancedObject(s, start, e)
  {
    FirstReturnToZero(s, start);
    forall k | start < k < e
      ensures Count(s, start, k, '{') > Count(s, start, k, '}')
    {
      assert Depth(s, start, k) > 0;
    }
  }

  /** A balanced object cut out of its text is balanced from its own first character. */
  lemma SliceBalanced(s: string, start: nat, e: nat)
    requires BalancedObject(s, start, e)
    ensures BalancedObject(s[start..e], 0, e - start)
  {
    var r := s[start..e];
    forall k | 0 < k <= |r|
      ensures Count(r, 0, k, '{') == Count(s, start, start + k, '{')
      ensures Count(r, 0, k, '}') == Count(s, start, start + k, '}')
    {
      CountOfSlice(s, start, e, 0, k, '{');
      CountOfSlice(s, start, e, 0, k, '}');
    }
    assert r[0] == '{';
  }

  lemma StableOnFallback(s: string)
    requires MatchFence(s).None?
    requires IndexOf(s, '{').None? || CloseFrom(s, IndexOf(s, '{').value, IndexOf(s, '{').value).None?
    ensures Clean(Clean(s)) == Clean(s)
  {
    var a := SkipSpace(s, 0);
    var b := SkipSpaceBack(s, a, |s|);
    var r := s[a..b];
    assert Clean(s) == TrimSpace(s) == r;
    NoFenceInSlice(s, a, b);
    TrimSpaceIdempotent(s);
    FallbackAgain(s, a, b, r);
  }

  lemma FallbackAgain(s: string, a: nat, b: nat, r: string)
    requires IndexOf(s, '{').None? || CloseFrom(s, IndexOf(s, '{').value, IndexOf(s, '{').value).None?
    requires a == SkipSpace(s, 0) && b == SkipSpaceBack(s, a, |s|) && r == s[a..b]
    requires MatchFence(r).None?
    requires TrimSpace(r) == r
    ensures Clean(r) == r
  {
    match IndexOf(s, '{')
    case None =>
      assert IndexOf(r, '{').None?;
    case Some(start) =>
      StillUnbalanced(s, start, a, b, r, start - a);
      UnbalancedFallsBack(r, start - a);
  }

  /** The trimmed text keeps an unclosed first '{' unclosed. */
  lemma StillUnbalanced(s: string, start: nat, a: nat, b: nat, r: string, o: nat)
    requires IndexOf(s, '{') == Some(start)
    requires CloseFrom(s, start, start).None?
    requires a == SkipSpace(s, 0) && b == SkipSpaceBack(s, a, |s|) && r == s[a..b]
    requires a + o == start
    ensures FirstOpenBrace(r, o)
    ensures forall k :: o < k <= |r| ==> Count(r, o, k, '{') > Count(r, o, k, '}')
  {
    FirstReturnToZero(s, start);
    assert start < b;
    forall k | o < k <= |r|
      ensures Count(r, o, k, '{') > Count(r, o, k, '}')
    {
      CountOfSlice(s, a, b, o, k, '{');
      CountOfSlice(s, a, b, o, k, '}');
      assert Depth(s, start, a + k) > 0;
    }
  }

  // ---------------------------------------------------------------------------
  // Parse
  // ---------------------------------------------------------------------------

  /** A message whose content is already one trimmed balanced object reaches the decoder with that content. */
  lemma CleanedObjectPassesThrough(m: Message)
    requires forall k :: 0 <= k < |m.content| ==> m.content[k] != '`'
    requires BalancedObject(m.content, 0, |m.content|)
    ensures CleanedMessage(m).content == m.content
  {
    WholeObjectUnchanged(m.content);
  }
}
