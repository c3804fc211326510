/** The tokenizer and the joiner of strutil.h, and how they undo each other. */
module StrUtil {

  // ------------------------------------------------------ std::string searches

  /** find_first_not_of, with |s| for npos. */
  function FindFirstNotOf(s: string, delims: string, from: nat): (r: nat)
    requires from <= |s|
    ensures from <= r <= |s|
    ensures forall k :: from <= k < r ==> s[k] in delims
    ensures r < |s| ==> s[r] !in delims
    decreases |s| - from
  {
    if from < |s| && s[from] in delims then FindFirstNotOf(s, delims, from + 1) else from
  }

  /** find_first_of, with |s| for npos. */
  function FindFirstOf(s: string, delims: string, from: nat): (r: nat)
    requires from <= |s|
    ensures from <= r <= |s|
    ensures forall k :: from <= k < r ==> s[k] !in delims
    ensures r < |s| ==> s[r] in delims
    decreases |s| - from
  {
    if from < |s| && s[from] !in delims then FindFirstOf(s, delims, from + 1) else from
  }

  // ------------------------------------------------------------------- tokens

  /** The tokens of a text. */
  function Tokens(s: string, delims: string): seq<string>
    decreases |s|
  {
    var i := FindFirstNotOf(s, delims, 0);
    if i == |s| then []
    else
      var j := FindFirstOf(s, delims, i);
      [s[i..j]] + Tokens(s[j..], delims)
  }

  /** s[i..j] is a run of non-delimiters that cannot be extended on either side. */
  ghost predicate IsMaximalRun(s: string, delims: string, i: nat, j: nat) {
    && i < j <= |s|
    && (forall k :: i <= k < j ==> s[k] !in delims)
    && (i == 0 || s[i - 1] in delims)
    && (j == |s| || s[j] in delims)
  }

  /** The places of the tokens of s[from..] in s. */
  function Spans(s: string, delims: string, from: nat): seq<(nat, nat)>
    requires from <= |s|
    decreases |s| - from
  {
    var i := FindFirstNotOf(s, delims, from);
    if i == |s| then []
    else
      var j := FindFirstOf(s, delims, i);
      [(i, j)] + Spans(s, delims, j)
  }

  /** Searching a suffix is searching the whole text from an offset. */
  lemma {:induction false} SearchSuffix(s: string, delims: string, from: nat, at: nat)
    requires from <= at <= |s|
    ensures FindFirstNotOf(s, delims, at) == from + FindFirstNotOf(s[from..], delims, at - from)
    ensures FindFirstOf(s, delims, at) == from + FindFirstOf(s[from..], delims, at - from)
    decreases |s| - at
  {
    if at < |s| {
      SearchSuffix(s, delims, from, at + 1);
    }
  }

  lemma {:induction false} SearchSkip(s: string, delims: string, from: nat, to: nat)
    requires from <= to <= |s| && forall k :: from <= k < to ==> s[k] in delims
    ensures FindFirstNotOf(s, delims, from) == FindFirstNotOf(s, delims, to)
    decreases |s| - from
  {
    if from < to {
      SearchSkip(s, delims, from + 1, to);
    }
  }

  lemma Slices(s: string, a: nat, b: nat, c: nat)
    requires a <= b <= c <= |s|
    ensures s[a..][b - a..c - a] == s[b..c] && s[a..][c - a..] == s[c..] && s[a..][..c - a] == s[a..c]
  {
  }

  lemma TokensUnfold(s: string, delims: string, i: nat, j: nat, token: string, rest: string)
    requires i == FindFirstNotOf(s, delims, 0) < |s| && j == FindFirstOf(s, delims, i)
    requires token == s[i..j] && rest == s[j..]
    ensures i < j && Tokens(s, delims) == [token] + Tokens(rest, delims)
  {
  }

  /** The first token of a suffix, in terms of the whole text. */
  lemma TokensFrom(s: string, delims: string, from: nat, i: nat, j: nat)
    requires from <= |s|
    requires i == FindFirstNotOf(s, delims, from) && j == FindFirstOf(s, delims, i)
    ensures i == |s| ==> Tokens(s[from..], delims) == []
    ensures i < |s| ==> i < j && Tokens(s[from..], delims) == [s[i..j]] + Tokens(s[j..], delims)
  {
    SearchesInSuffix(s, delims, from, i, j, s[from..]);
    if i < |s| {
      Slices(s, from, i, j);
      TokensUnfold(s[from..], delims, i - from, j - from, s[i..j], s[j..]);
    } else {
      NoTokens(s[from..], delims);
    }
  }

  lemma SearchesInSuffix(s: string, delims: string, from: nat, i: nat, j: nat, suffix: string)
    requires from <= |s| && suffix == s[from..]
    requires i == FindFirstNotOf(s, delims, from) && j == FindFirstOf(s, delims, i)
    ensures FindFirstNotOf(suffix, delims, 0) == i - from && FindFirstOf(suffix, delims, i - from) == j - from
  {
    SearchSuffix(s, delims, from, from);
    SearchSuffix(s, delims, from, i);
  }

  lemma NoTokens(s: string, delims: string)
    requires FindFirstNotOf(s, delims, 0) == |s|
    ensures Tokens(s, delims) == []
  {
  }

  ghost predicate InOrder(spans: seq<(nat, nat)>, from: nat) {
    && (forall k :: 0 <= k < |spans| ==> from <= spans[k].0 < spans[k].1)
    && (forall k, l :: 0 <= k < l < |spans| ==> spans[k].1 < spans[l].0)
  }

  /** The spans found from an offset at which no run is cut: exactly the maximal
      runs from there on, in order. */
  lemma {:induction false} SpansAreRuns(s: string, delims: string, from: nat)
    requires from <= |s|
    requires from == 0 || from == |s| || s[from] in delims
    ensures InOrder(Spans(s, delims, from), from)
    ensures forall i: nat, j: nat :: (i, j) in Spans(s, delims, from) <==> from <= i && IsMaximalRun(s, delims, i, j)
    decreases |s| - from
  {
    var spans := Spans(s, delims, from);
    var i0 := FindFirstNotOf(s, delims, from);
    if i0 < |s| {
      var j0 := FindFirstOf(s, delims, i0);
      var rest := Spans(s, delims, j0);
      SpansAreRuns(s, delims, j0);
      assert forall k :: 0 < k < |spans| ==> spans[k] == rest[k - 1];
      assert forall k :: 0 <= k < |rest| ==> rest[k] in rest;
      assert InOrder(spans, from);
      assert IsMaximalRun(s, delims, i0, j0);
      forall i: nat, j: nat
        ensures (i, j) in spans <==> from <= i && IsMaximalRun(s, delims, i, j)
      {
        assert (i, j) in spans <==> (i, j) == (i0, j0) || (i, j) in rest;
        if IsMaximalRun(s, delims, i, j) && from <= i < j0 {
          assert s[i] !in delims;
          assert i0 <= i;
          assert i <= i0;
          assert j <= j0;
        }
      }
    } else {
      forall i: nat, j: nat | from <= i < |s|
        ensures !IsMaximalRun(s, delims, i, j)
      {
        assert s[i] in delims;
      }
    }
  }

  /** The tokens are what s holds at the spans. */
  ghost predicate AtSpans(tokens: seq<string>, s: string, spans: seq<(nat, nat)>) {
    && |tokens| == |spans|
    && (forall k :: 0 <= k < |spans| ==>
          spans[k].0 <= spans[k].1 <= |s| && tokens[k] == s[spans[k].0..spans[k].1])
  }

  lemma AtSpansCons(tokens: seq<string>, s: string, spans: seq<(nat, nat)>, i: nat, j: nat)
    requires AtSpans(tokens, s, spans) && i <= j <= |s|
    ensures AtSpans([s[i..j]] + tokens, s, [(i, j)] + spans)
  {
  }

  lemma {:induction false} TokensAtSpans(s: string, delims: string, from: nat)
    requires from <= |s|
    ensures AtSpans(Tokens(s[from..], delims), s, Spans(s, delims, from))
    decreases |s| - from
  {
    var i := FindFirstNotOf(s, delims, from);
    var j := FindFirstOf(s, delims, i);
    TokensFrom(s, delims, from, i, j);
    if i < |s| {
      TokensAtSpans(s, delims, j);
      AtSpansCons(Tokens(s[j..], delims), s, Spans(s, delims, j), i, j);
    }
  }

  /** The tokens of a text are its maximal runs of non-delimiters, all of them and
      in order. */
  lemma TokensAreMaximalRuns(s: string, delims: string)
    ensures var spans := Spans(s, delims, 0);
            && InOrder(spans, 0)
            && (forall i: nat, j: nat :: (i, j) in spans <==> IsMaximalRun(s, delims, i, j))
            && AtSpans(Tokens(s, delims), s, spans)
  {
    SpansAreRuns(s, delims, 0);
    TokensAtSpans(s, delims, 0);
    assert s[0..] == s;
  }

  /** n characters hold at most ceil(n/2) tokens. */
  lemma {:induction false} TokenCount(s: string, delims: string)
    ensures 2 * |Tokens(s, delims)| <= |s| + 1
    ensures s != "" && s[0] in delims ==> 2 * |Tokens(s, delims)| <= |s|
    decreases |s|
  {
    var i := FindFirstNotOf(s, delims, 0);
    if i < |s| {
      TokenCount(s[FindFirstOf(s, delims, i)..], delims);
    }
  }

  // -------------------------------------------------------------- the tokenizer

  class Tokenizer {
    var offset: nat
    const text: string
    var token: string
    const delimiters: string

    ghost predicate Valid()
      reads this
    {
      offset <= |text|
    }

    /** The tokens that repeated calls have yet to return. */
    ghost function Remaining(delims: string): seq<string>
      reads this
      requires Valid()
    {
      Tokens(text[offset..], delims)
    }

    constructor (str: string, delims: string)
      ensures Valid() && offset == 0 && text == str && delimiters == delims
      ensures Remaining(delims) == Tokens(str, delims)
    {
      offset, text, token, delimiters := 0, str, "", delims;
      new;
      assert text[0..] == str;
    }

    method Reset()
      modifies this
      ensures Valid() && token == old(token)
      ensures forall delims :: Remaining(delims) == Tokens(text, delims)
    {
      offset := 0;
      assert text[0..] == text;
    }

    method NextToken() returns (found: bool)
      requires Valid()
      modifies this
      ensures Valid() && old(offset) <= offset
      ensures found <==> old(Remaining(delimiters)) != []
      ensures found ==> [token] + Remaining(delimiters) == old(Remaining(delimiters)) && old(offset) < offset
      ensures !found ==> token == old(token) && offset == |text| && Remaining(delimiters) == []
    {
      found := NextTokenBy(delimiters);
    }

    /** The overload with delimiters of its own, which may differ from call to call. */
    method NextTokenBy(delims: string) returns (found: bool)
      requires Valid()
      modifies this
      ensures Valid() && old(offset) <= offset
      ensures found <==> old(Remaining(delims)) != []
      ensures found ==> [token] + Remaining(delims) == old(Remaining(delims)) && old(offset) < offset
      ensures !found ==> token == old(token) && offset == |text| && Remaining(delims) == []
    {
      var i := FindFirstNotOf(text, delims, offset);
      TokensFrom(text, delims, offset, i, FindFirstOf(text, delims, i));
      if i == |text| {
        offset := |text|;
        return false;
      }
      var j := FindFirstOf(text, delims, i);
      if j == |text| {
        token := text[i..];
        offset := |text|;
        assert text[i..j] == text[i..];
        return true;
      }
      token := text[i..j];
      offset := j;
      return true;
    }
  }

  // ------------------------------------------------------------------- joining

  function Join(tokens: seq<string>, delimiter: string): string {
    if |tokens| == 0 then ""
    else if |tokens| == 1 then tokens[0]
    else tokens[0] + delimiter + Join(tokens[1..], delimiter)
  }

  /** MergeToken; `result0` is what the reference parameter held before. */
  method MergeToken(tokens: seq<string>, delimiter: string, result0: string) returns (ok: bool, result: string)
    ensures ok <==> tokens != [] && delimiter != ""
    ensures result == if ok then Join(tokens, delimiter) else result0
  {
    result := result0;
    if |tokens| == 0 {
      return false, result;
    }
    if |delimiter| == 0 {
      return false, result;
    }
    result := "";
    var k := 0;
    while k < |tokens|
      invariant 0 <= k <= |tokens|
      invariant k < |tokens| ==> result + Join(tokens[k..], delimiter) == Join(tokens, delimiter)
      invariant k == |tokens| ==> result == Join(tokens, delimiter)
    {
      assert tokens[k..][1..] == tokens[k + 1..];
      result := result + tokens[k];
      if k + 1 != |tokens| {
        result := result + delimiter;
      }
      k := k + 1;
    }
    ok := true;
  }

  // ------------------------------------------------- the two undo each other

  ghost predicate AllIn(s: string, delims: string) {
    forall k :: 0 <= k < |s| ==> s[k] in delims
  }

  /** A token that a split can return. */
  ghost predicate Proper(t: string, delims: string) {
    t != "" && forall k :: 0 <= k < |t| ==> t[k] !in delims
  }

  ghost predicate AllProper(tokens: seq<string>, delims: string) {
    forall k :: 0 <= k < |tokens| ==> Proper(tokens[k], delims)
  }

  lemma {:induction false} TokensAreProper(s: string, delims: string)
    ensures AllProper(Tokens(s, delims), delims)
    decreases |s|
  {
    var i := FindFirstNotOf(s, delims, 0);
    if i < |s| {
      TokensAreProper(s[FindFirstOf(s, delims, i)..], delims);
    }
  }

  /** Delimiters in front change nothing. */
  lemma TokensSkip(sep: string, rest: string, delims: string)
    requires AllIn(sep, delims)
    ensures Tokens(sep + rest, delims) == Tokens(rest, delims)
  {
    var s := sep + rest;
    assert s[|sep|..] == rest && s[0..] == s;
    SearchSkip(s, delims, 0, |sep|);
    var i := FindFirstNotOf(s, delims, 0);
    TokensFrom(s, delims, 0, i, FindFirstOf(s, delims, i));
    TokensFrom(s, delims, |sep|, i, FindFirstOf(s, delims, i));
  }

  /** A proper token at the front of a text, ended by a delimiter or the end. */
  lemma TokensFront(t: string, rest: string, delims: string)
    requires Proper(t, delims)
    requires rest == "" || rest[0] in delims
    ensures Tokens(t + rest, delims) == [t] + Tokens(rest, delims)
  {
    var s := t + rest;
    assert s[0] == t[0];
    assert FindFirstNotOf(s, delims, 0) == 0;
    assert forall k :: 0 <= k < |t| ==> s[k] == t[k];
    assert rest != "" ==> s[|t|] == rest[0];
    assert FindFirstOf(s, delims, 0) == |t|;
    assert s[0..|t|] == t && s[|t|..] == rest;
  }

  lemma {:induction false} SplitJoin(tokens: seq<string>, sep: string, delims: string)
    requires AllProper(tokens, delims)
    requires |tokens| <= 1 || (sep != "" && AllIn(sep, delims))
    ensures Tokens(Join(tokens, sep), delims) == tokens
  {
    if |tokens| == 1 {
      TokensFront(tokens[0], "", delims);
      assert tokens[0] + "" == tokens[0];
      assert tokens == [tokens[0]];
    } else if |tokens| > 1 {
      var rest := Join(tokens[1..], sep);
      SplitJoin(tokens[1..], sep, delims);
      assert Join(tokens, sep) == tokens[0] + (sep + rest);
      TokensFront(tokens[0], sep + rest, delims);
      TokensSkip(sep, rest, delims);
      assert tokens == [tokens[0]] + tokens[1..];
    }
  }

  /** A text without its delimiters. */
  function Strip(s: string, delims: string): string {
    if s == "" then ""
    else (if s[0] in delims then "" else [s[0]]) + Strip(s[1..], delims)
  }

  function Concat(tokens: seq<string>): string {
    if tokens == [] then "" else tokens[0] + Concat(tokens[1..])
  }

  lemma {:induction false} StripAppend(s: string, r: string, delims: string)
    ensures Strip(s + r, delims) == Strip(s, delims) + Strip(r, delims)
  {
    if s == "" {
      assert s + r == r;
    } else {
      assert (s + r)[1..] == s[1..] + r;
      StripAppend(s[1..], r, delims);
    }
  }

  lemma {:induction false} StripUniform(s: string, delims: string)
    ensures AllIn(s, delims) <==> Strip(s, delims) == ""
    ensures (forall k :: 0 <= k < |s| ==> s[k] !in delims) ==> Strip(s, delims) == s
  {
    if s != "" {
      StripUniform(s[1..], delims);
      assert forall k :: 0 < k < |s| ==> s[k] == s[1..][k - 1];
      assert AllIn(s, delims) <==> s[0] in delims && AllIn(s[1..], delims);
    }
  }

  lemma StripSplit(s: string, i: nat, delims: string)
    requires i <= |s|
    ensures Strip(s, delims) == Strip(s[..i], delims) + Strip(s[i..], delims)
  {
    assert s == s[..i] + s[i..];
    StripAppend(s[..i], s[i..], delims);
  }

  /** Stripping over leading delimiters s[..i] and the run s[i..j]. */
  lemma StripRun(s: string, i: nat, j: nat, delims: string)
    requires i <= j <= |s|
    requires forall k :: 0 <= k < i ==> s[k] in delims
    requires forall k :: i <= k < j ==> s[k] !in delims
    ensures Strip(s, delims) == s[i..j] + Strip(s[j..], delims)
  {
    StripSplit(s, i, delims);
    StripUniform(s[..i], delims);
    Slices(s, i, i, j);
    StripSplit(s[i..], j - i, delims);
    StripUniform(s[i..j], delims);
  }

  /** Splitting loses nothing but delimiters: the tokens put end to end are the
      text with its delimiters removed. */
  lemma {:induction false} SplitConserves(s: string, delims: string)
    ensures Concat(Tokens(s, delims)) == Strip(s, delims)
    decreases |s|
  {
    var i := FindFirstNotOf(s, delims, 0);
    if i < |s| {
      var j := FindFirstOf(s, delims, i);
      StripRun(s, i, j, delims);
      SplitConserves(s[j..], delims);
      assert Tokens(s, delims)[1..] == Tokens(s[j..], delims);
    } else {
      StripUniform(s, delims);
    }
  }

  lemma OneMore(x: int, y: int)
    ensures (x + 1) * y == x * y + y
  {
  }

  lemma {:induction false} StripJoin(tokens: seq<string>, sep: string, delims: string)
    requires AllProper(tokens, delims) && tokens != []
    ensures |Strip(Join(tokens, sep), delims)| == |Concat(tokens)| + (|tokens| - 1) * |Strip(sep, delims)|
  {
    StripUniform(tokens[0], delims);
    if |tokens| > 1 {
      StripJoin(tokens[1..], sep, delims);
      StripAppend(tokens[0] + sep, Join(tokens[1..], sep), delims);
      StripAppend(tokens[0], sep, delims);
      OneMore(|tokens| - 2, |Strip(sep, delims)|);
    } else {
      assert Concat(tokens[1..]) == "";
    }
  }

  lemma ZeroFactor(x: nat, y: nat)
    requires x * y == 0
    ensures x == 0 || y == 0
  {
  }

  /** Where each token of a join stands: behind the earlier tokens and a delimiter for
      each of them, and in front of the next delimiter or the end. */
  lemma {:induction false} JoinPlaces(tokens: seq<string>, delimiter: string, k: nat)
    requires k < |tokens|
    ensures var text, start := Join(tokens, delimiter), |Concat(tokens[..k])| + k * |delimiter|;
            var end := start + |tokens[k]|;
            && end <= |text| && text[start..end] == tokens[k]
            && (if k + 1 < |tokens| then delimiter <= text[end..] else end == |text|)
  {
    if k == 0 {
      FirstPlace(tokens, delimiter);
    } else {
      JoinPlaces(tokens[1..], delimiter, k - 1);
      ConcatCons(tokens, k);
      OneMore(k - 1, |delimiter|);
      var start := |Concat(tokens[1..][..k - 1])| + (k - 1) * |delimiter|;
      JoinCons(tokens, delimiter, Join(tokens[1..], delimiter));
      ShiftedPlace(tokens[0] + delimiter, Join(tokens[1..], delimiter), start, start + |tokens[k]|);
    }
  }

  lemma JoinCons(tokens: seq<string>, delimiter: string, rest: string)
    requires |tokens| > 1 && rest == Join(tokens[1..], delimiter)
    ensures Join(tokens, delimiter) == (tokens[0] + delimiter) + rest
  {
  }

  lemma FirstPlace(tokens: seq<string>, delimiter: string)
    requires tokens != []
    ensures Concat(tokens[..0]) == "" && tokens[0] <= Join(tokens, delimiter)
    ensures if |tokens| == 1 then Join(tokens, delimiter) == tokens[0]
            else delimiter <= Join(tokens, delimiter)[|tokens[0]|..]
  {
    if |tokens| > 1 {
      JoinCons(tokens, delimiter, Join(tokens[1..], delimiter));
    }
  }

  lemma ConcatCons(tokens: seq<string>, k: nat)
    requires 0 < k <= |tokens|
    ensures Concat(tokens[..k]) == tokens[0] + Concat(tokens[1..][..k - 1])
  {
    assert tokens[..k][1..] == tokens[1..][..k - 1];
  }

  lemma ShiftedPlace(front: string, rest: string, start: nat, end: nat)
    requires start <= end <= |rest|
    ensures (front + rest)[|front| + start..|front| + end] == rest[start..end]
    ensures (front + rest)[|front| + end..] == rest[end..]
  {
  }

  /** Split after join is the identity exactly when every token is non-empty and free
      of delimiters and the joiner, where one is used, consists of delimiters. */
  lemma SplitUndoesJoin(tokens: seq<string>, sep: string, delims: string)
    requires tokens != [] && sep != ""
    ensures Tokens(Join(tokens, sep), delims) == tokens
       <==> AllProper(tokens, delims) && (|tokens| == 1 || AllIn(sep, delims))
  {
    if Tokens(Join(tokens, sep), delims) == tokens {
      TokensAreProper(Join(tokens, sep), delims);
      SplitConserves(Join(tokens, sep), delims);
      StripJoin(tokens, sep, delims);
      StripUniform(sep, delims);
      ZeroFactor(|tokens| - 1, |Strip(sep, delims)|);
    } else if AllProper(tokens, delims) && (|tokens| == 1 || AllIn(sep, delims)) {
      SplitJoin(tokens, sep, delims);
    }
  }

  /** Join after split is an idempotent normalisation, and it keeps the tokens. */
  lemma JoinAfterSplitNormalises(s: string, sep: string, delims: string)
    requires sep != "" && AllIn(sep, delims)
    ensures var normal := Join(Tokens(s, delims), sep);
            && Tokens(normal, delims) == Tokens(s, delims)
            && Join(Tokens(normal, delims), sep) == normal
            && Strip(normal, delims) == Strip(s, delims)
  {
    TokensAreProper(s, delims);
    SplitJoin(Tokens(s, delims), sep, delims);
    SplitConserves(s, delims);
    SplitConserves(Join(Tokens(s, delims), sep), delims);
  }
}
