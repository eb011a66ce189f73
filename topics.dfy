/**
 * Topic extraction from a trigger condition (extract_topics in record.py).
 *
 * The source takes every match of the regular expression `\b[a-z]\w+` in the
 * condition, in order, and then deletes from that list every occurrence of the
 * keywords `or` and `and`, one `list.remove` at a time. Word characters are the
 * ASCII ones: letters, digits and the underscore.
 */
module TopicParser {

  import opened Wrappers

  /** What `\w` matches in this model. */
  predicate IsWordChar(c: char)
  {
    ('a' <= c <= 'z') || ('A' <= c <= 'Z') || ('0' <= c <= '9') || c == '_'
  }

  /** What `[a-z]` matches. */
  predicate IsLower(c: char)
  {
    'a' <= c <= 'z'
  }

  /** A match of the pattern occupying s[start..end]. */
  datatype Span = Span(start: nat, end: nat)

  /**
   * The declarative reading of one match of `\b[a-z]\w+`: a maximal run of word
   * characters that begins with a lower-case letter and is at least two long.
   * Nothing before `start` is a word character (the `\b`), and the greedy `\w+`
   * stops only at a non-word character or at the end of the text.
   */
  predicate IsMatch(s: string, start: nat, end: nat)
  {
    && start + 2 <= end <= |s|
    && IsLower(s[start])
    && (start == 0 || !IsWordChar(s[start - 1]))
    && (forall k :: start < k < end ==> IsWordChar(s[k]))
    && (end == |s| || !IsWordChar(s[end]))
  }

  /** Where a greedy `\w*` that starts at position j stops. */
  function RunEnd(s: string, j: nat): (e: nat)
    requires j <= |s|
    ensures j <= e <= |s|
    ensures forall k :: j <= k < e ==> IsWordChar(s[k])
    ensures e == |s| || !IsWordChar(s[e])
    decreases |s| - j
  {
    if j < |s| && IsWordChar(s[j]) then RunEnd(s, j + 1) else j
  }

  /** One attempt of the pattern at position i: the end of the match, if there is one. */
  function MatchAt(s: string, i: nat): (m: Option<nat>)
    requires i < |s|
    ensures m.Some? ==> IsMatch(s, i, m.value)
    ensures m.None? ==> forall e :: !IsMatch(s, i, e)
  {
    if (i == 0 || !IsWordChar(s[i - 1])) && IsLower(s[i]) && i + 1 < |s| && IsWordChar(s[i + 1])
    then Some(RunEnd(s, i + 1))
    else None
  }

  /**
   * `re.findall` from position i: try the pattern at each position, and after a
   * match resume at its end. Every span found is a match at or after i, and the
   * spans come in source order without overlapping.
   */
  function FindAll(s: string, i: nat): (r: seq<Span>)
    requires i <= |s|
    ensures forall k :: 0 <= k < |r| ==> i <= r[k].start && IsMatch(s, r[k].start, r[k].end)
    ensures forall k, l :: 0 <= k < l < |r| ==> r[k].end <= r[l].start
    decreases |s| - i
  {
    if i == |s| then []
    else match MatchAt(s, i)
      case Some(e) => [Span(i, e)] + FindAll(s, e)
      case None => FindAll(s, i + 1)
  }

  /** Every match that starts at or after i is found by a scan from i. */
  lemma {:induction false} FindAllComplete(s: string, i: nat, b: nat, e: nat)
    requires i <= b
    requires IsMatch(s, b, e)
    ensures Span(b, e) in FindAll(s, i)
    decreases |s| - i
  {
    if i == b {
      assert RunEnd(s, b + 1) == e;
      assert FindAll(s, b)[0] == Span(b, e);
    } else {
      match MatchAt(s, i)
      case Some(e') =>
        // the match at i is a word run of its own, so it ends before the run at b begins
        assert e' <= b;
        FindAllComplete(s, e', b, e);
        assert FindAll(s, i) == [Span(i, e')] + FindAll(s, e');
      case None =>
        FindAllComplete(s, i + 1, b, e);
    }
  }

  /** The matches of the pattern in the whole condition, in source order. */
  function Spans(s: string): (r: seq<Span>)
  {
    FindAll(s, 0)
  }

  /** The matched substrings of s for the given spans. */
  function Texts(s: string, spans: seq<Span>): (r: seq<string>)
    requires forall k :: 0 <= k < |spans| ==> spans[k].start <= spans[k].end <= |s|
  {
    if spans == [] then [] else [s[spans[0].start..spans[0].end]] + Texts(s, spans[1..])
  }

  /** The k-th text is the substring under the k-th span. */
  lemma {:induction false} TextsAt(s: string, spans: seq<Span>, k: nat)
    requires forall k :: 0 <= k < |spans| ==> spans[k].start <= spans[k].end <= |s|
    ensures |Texts(s, spans)| == |spans|
    ensures k < |spans| ==> Texts(s, spans)[k] == s[spans[k].start..spans[k].end]
  {
    if spans != [] {
      TextsAt(s, spans[1..], if k > 0 then k - 1 else 0);
    }
  }

  /** The list `re.findall(r"\b[a-z]\w+", s)` returns. */
  function Tokens(s: string): (r: seq<string>)
  {
    Texts(s, Spans(s))
  }

  /** The matches found by a scan from position i, as strings. */
  function TokensFrom(s: string, i: nat): (r: seq<string>)
    requires i <= |s|
  {
    Texts(s, FindAll(s, i))
  }

  /** One step of the scan: a match at i contributes its text and the scan resumes at its end. */
  lemma TokensFromStep(s: string, i: nat)
    requires i < |s|
    ensures MatchAt(s, i).Some? ==>
      MatchAt(s, i).value <= |s| &&
      TokensFrom(s, i) == [s[i..MatchAt(s, i).value]] + TokensFrom(s, MatchAt(s, i).value)
    ensures MatchAt(s, i).None? ==> TokensFrom(s, i) == TokensFrom(s, i + 1)
  {
    match MatchAt(s, i)
    case Some(e) =>
      var rest := FindAll(s, e);
      assert FindAll(s, i) == [Span(i, e)] + rest;
      assert ([Span(i, e)] + rest)[1..] == rest;
    case None =>
  }

  /** The scan invariant survives taking the match at i. */
  lemma ScanMatch(s: string, i: nat, tokens: seq<string>)
    requires i < |s| && MatchAt(s, i).Some?
    requires tokens + TokensFrom(s, i) == Tokens(s)
    ensures MatchAt(s, i).value <= |s|
    ensures (tokens + [s[i..MatchAt(s, i).value]]) + TokensFrom(s, MatchAt(s, i).value) == Tokens(s)
  {
    TokensFromStep(s, i);
    var e := MatchAt(s, i).value;
    AppendAssoc(tokens, [s[i..e]], TokensFrom(s, e));
  }

  /** The scan invariant survives moving past a position where the pattern does not match. */
  lemma ScanSkip(s: string, i: nat, tokens: seq<string>)
    requires i < |s| && MatchAt(s, i).None?
    requires tokens + TokensFrom(s, i) == Tokens(s)
    ensures tokens + TokensFrom(s, i + 1) == Tokens(s)
  {
    TokensFromStep(s, i);
  }

  lemma AppendAssoc(a: seq<string>, b: seq<string>, c: seq<string>)
    ensures a + (b + c) == (a + b) + c
  {
  }

  /** The shape every match has: an identifier of two or more word characters starting lower-case. */
  predicate IsWordToken(t: string)
  {
    |t| >= 2 && IsLower(t[0]) && forall k :: 0 <= k < |t| ==> IsWordChar(t[k])
  }

  /**
   * The k-th token is the text of the k-th match, and it is an identifier that
   * is not immediately preceded by a word character.
   */
  lemma TokenAt(s: string, k: nat)
    requires k < |Spans(s)|
    ensures |Tokens(s)| == |Spans(s)|
    ensures Tokens(s)[k] == s[Spans(s)[k].start..Spans(s)[k].end]
    ensures IsMatch(s, Spans(s)[k].start, Spans(s)[k].end)
    ensures IsWordToken(Tokens(s)[k])
  {
    TextsAt(s, Spans(s), k);
    var sp := Spans(s)[k];
    var t := Tokens(s)[k];
    assert t == s[sp.start..sp.end];
    forall j | 0 <= j < |t| ensures IsWordChar(t[j]) {
      assert t[j] == s[sp.start + j];
    }
  }

  /** The position of the first occurrence of w in ts. */
  function FirstIndex(ts: seq<string>, w: string): (i: nat)
    requires w in ts
    ensures i < |ts| && ts[i] == w && w !in ts[..i]
  {
    if ts[0] == w then 0
    else
      var j := FirstIndex(ts[1..], w);
      assert ts[..j + 1] == [ts[0]] + ts[1..][..j];
      j + 1
  }

  /** Python's `list.remove(w)`: delete the first occurrence of w. */
  function RemoveFirst(ts: seq<string>, w: string): (r: seq<string>)
    requires w in ts
    ensures |r| == |ts| - 1
    ensures multiset(r) == multiset(ts) - multiset{w}
    ensures Without(r, w) == Without(ts, w)
  {
    assert ts == [ts[0]] + ts[1..];
    if ts[0] == w then ts[1..]
    else
      var rest := RemoveFirst(ts[1..], w);
      assert ([ts[0]] + rest)[1..] == rest;
      [ts[0]] + rest
  }

  /** The occurrence `list.remove` deletes is the first one; everything before and after it stays in place. */
  lemma {:induction false} RemoveFirstAt(ts: seq<string>, w: string)
    requires w in ts
    ensures RemoveFirst(ts, w) == ts[..FirstIndex(ts, w)] + ts[FirstIndex(ts, w) + 1..]
    ensures exists i :: 0 <= i < |ts| && ts[i] == w && w !in ts[..i] && RemoveFirst(ts, w) == ts[..i] + ts[i + 1..]
  {
    var i := FirstIndex(ts, w);
    if ts[0] != w {
      var tail := ts[1..];
      RemoveFirstAt(tail, w);
      var j := FirstIndex(tail, w);
      assert i == j + 1;
      assert RemoveFirst(ts, w) == [ts[0]] + (tail[..j] + tail[j + 1..]);
      DeleteAfterHead(ts, j);
    } else {
      assert ts[..0] + ts[1..] == ts[1..];
    }
  }

  /** Deleting position j of the tail of s is deleting position j + 1 of s. */
  lemma DeleteAfterHead<T>(s: seq<T>, j: nat)
    requires j + 1 < |s|
    ensures [s[0]] + (s[1..][..j] + s[1..][j + 1..]) == s[..j + 1] + s[j + 2..]
  {
    assert [s[0]] + s[1..][..j] == s[..j + 1];
  }

  /**
   * ts with every occurrence of w deleted and the rest kept in order: w is gone,
   * every other token keeps its number of occurrences, nothing new appears.
   */
  function Without(ts: seq<string>, w: string): (r: seq<string>)
    ensures w !in r
    ensures forall x :: x != w ==> multiset(r)[x] == multiset(ts)[x]
    ensures forall x :: x in r ==> x in ts
    ensures w !in ts ==> r == ts
  {
    if ts == [] then []
    else
      assert ts == [ts[0]] + ts[1..];
      if ts[0] == w then Without(ts[1..], w)
      else [ts[0]] + Without(ts[1..], w)
  }

  /** ts with every occurrence of each keyword of ws deleted, the keywords taken in order. */
  function WithoutEach(ts: seq<string>, ws: seq<string>): (r: seq<string>)
    ensures forall w :: w in ws ==> w !in r
    ensures forall x :: x !in ws ==> multiset(r)[x] == multiset(ts)[x]
    ensures forall x :: x in r ==> x in ts
    decreases |ws|
  {
    if ws == [] then ts
    else
      var inner := WithoutEach(ts, ws[..|ws| - 1]);
      assert forall w :: w in ws ==> w in ws[..|ws| - 1] || w == ws[|ws| - 1];
      Without(inner, ws[|ws| - 1])
  }

  /** The boolean keywords that are grammar, not topics. */
  const Reserved: seq<string> := ["or", "and"]

  /** What extract_topics returns for a condition. */
  function Topics(expr: string): (r: seq<string>)
  {
    WithoutEach(Tokens(expr), Reserved)
  }

  /**
   * The topics are the regex matches with exactly the keywords taken out: no
   * `or` or `and` is left however often they occur, every other token keeps all
   * of its occurrences (duplicates included), and every topic is an identifier
   * of two or more ASCII word characters starting with a lower-case letter.
   */
  lemma TopicsExact(expr: string)
    ensures "or" !in Topics(expr) && "and" !in Topics(expr)
    ensures forall x :: x != "or" && x != "and" ==> multiset(Topics(expr))[x] == multiset(Tokens(expr))[x]
    ensures forall t :: t in Topics(expr) ==> IsWordToken(t) && t in Tokens(expr)
  {
    assert "or" in Reserved && "and" in Reserved;
    forall t | t in Topics(expr) ensures IsWordToken(t) && t in Tokens(expr) {
      var k :| 0 <= k < |Tokens(expr)| && Tokens(expr)[k] == t;
      TextsAt(expr, Spans(expr), k);
      TokenAt(expr, k);
    }
  }

  /**
   * The scanner behind `re.findall`: walk the condition once, and at each
   * position where the pattern matches take the whole word run and jump past it.
   */
  method ScanTokens(s: string) returns (tokens: seq<string>)
    ensures tokens == Tokens(s)
  {
    tokens := [];
    var i := 0;
    while i < |s|
      invariant 0 <= i <= |s|
      invariant tokens + TokensFrom(s, i) == Tokens(s)
    {
      if (i == 0 || !IsWordChar(s[i - 1])) && IsLower(s[i]) && i + 1 < |s| && IsWordChar(s[i + 1]) {
        var j := i + 1;
        while j < |s| && IsWordChar(s[j])
          invariant i + 1 <= j <= |s|
          invariant RunEnd(s, j) == RunEnd(s, i + 1)
        {
          j := j + 1;
        }
        assert RunEnd(s, j) == j;
        ScanMatch(s, i, tokens);
        var word := s[i..j];
        tokens := tokens + [word];
        i := j;
      } else {
        ScanSkip(s, i, tokens);
        i := i + 1;
      }
    }
  }

  /** The `while True: try: topics.remove(w) except ValueError: break` loop. */
  method RemoveAll(ts: seq<string>, w: string) returns (r: seq<string>)
    ensures r == Without(ts, w)
  {
    r := ts;
    while w in r
      invariant Without(r, w) == Without(ts, w)
      decreases |r|
    {
      r := RemoveFirst(r, w);
    }
  }

  /**
   * extract_topics: the regex matches in source order with every `or` and
   * every `and` deleted; nothing else is removed and nothing is deduplicated.
   */
  method ExtractTopics(expr: string) returns (topics: seq<string>)
    ensures topics == Topics(expr)
    ensures "or" !in topics && "and" !in topics
    ensures forall x :: x != "or" && x != "and" ==> multiset(topics)[x] == multiset(Tokens(expr))[x]
    ensures forall t :: t in topics ==> IsWordToken(t)
  {
    topics := ScanTokens(expr);
    for k := 0 to |Reserved|
      invariant topics == WithoutEach(Tokens(expr), Reserved[..k])
    {
      assert Reserved[..k + 1][..k] == Reserved[..k];
      topics := RemoveAll(topics, Reserved[k]);
    }
    assert Reserved[..|Reserved|] == Reserved;
    TopicsExact(expr);
  }
}
