/** words, starts_of_words, nth_word and squash: four loops over the same text, related
    to each other through the pieces of split_string. */
module Words {
  import opened Text
  import opened Splitting

  const SPACE := ' '

  function NonEmpty(v: seq<string>): (w: seq<string>)
    ensures forall k :: 0 <= k < |w| ==> w[k] != ""
  {
    if v == [] then [] else (if v[0] == "" then [] else [v[0]]) + NonEmpty(v[1..])
  }

  /** The words that begin at or after p. */
  function WordsFrom(s: string, p: nat): seq<string>
    requires p <= |s|
    decreases |s| - p
  {
    match FindNotChar(s, SPACE, p)
    case None => []
    case Some(b) =>
      match FindChar(s, SPACE, b)
      case None => [s[b..]]
      case Some(e) => [s[b..e]] + WordsFrom(s, e)
  }

  lemma {:induction false} SkipSpace(s: string, p: nat)
    requires p < |s| && s[p] == SPACE
    ensures WordsFrom(s, p) == WordsFrom(s, p + 1)
  {
    assert FindNotChar(s, SPACE, p) == FindNotChar(s, SPACE, p + 1);
  }

  lemma {:induction false} NonEmptyCons(x: string, v: seq<string>)
    ensures NonEmpty([x] + v) == (if x == "" then [] else [x]) + NonEmpty(v)
  {
    assert ([x] + v)[1..] == v;
  }

  lemma {:induction false} WordsArePiecesFrom(s: string, p: nat)
    requires p <= |s|
    ensures WordsFrom(s, p) == NonEmpty(SplitFrom(s, SPACE, p))
    decreases |s| - p
  {
    var r := FindChar(s, SPACE, p);
    if r.None? {
      NonEmptyCons(s[p..], []);
    } else {
      WordsArePiecesFrom(s, r.value + 1);
      SkipSpace(s, r.value);
      NonEmptyCons(s[p..r.value], SplitFrom(s, SPACE, r.value + 1));
    }
  }

  /** The words of a text are the non-empty pieces of splitting it at spaces. */
  lemma {:induction false} WordsArePieces(s: string)
    ensures WordsFrom(s, 0) == NonEmpty(Split(s, SPACE))
  {
    WordsArePiecesFrom(s, 0);
  }

  // ----- words

  ghost predicate EndsAfterWord(s: string) {
    s != "" && s[|s| - 1] == ' ' && exists i :: 0 <= i < |s| && s[i] != ' '
  }

  /** What words returns: line 804 tests posn, which is never npos there, so a text that
      ends in a space after a word yields one more, empty, element. */
  ghost function WordsResult(s: string): seq<string> {
    WordsFrom(s, 0) + if EndsAfterWord(s) then [""] else []
  }

  lemma {:induction false} WordStep(s: string, b: nat, done: seq<string>, all: seq<string>)
    requires b < |s| && s[b] != SPACE
    requires all == done + WordsFrom(s, b)
    ensures match FindChar(s, SPACE, b)
            case None => all == done + [s[b..]]
            case Some(e) =>
              match FindNotChar(s, SPACE, e)
              case None => all == done + [s[b..e]]
              case Some(b') => all == done + [s[b..e]] + WordsFrom(s, b')
  {
    hide FindChar;
    var r := FindChar(s, SPACE, b);
    if r.Some? {
      var next := FindNotChar(s, SPACE, r.value);
      if next.Some? {
        assert FindNotChar(s, SPACE, next.value) == next;
        assert WordsFrom(s, r.value) == WordsFrom(s, next.value);
      }
    }
  }

  method ListWords(str: string) returns (rv: seq<string>)
    ensures rv == NonEmpty(Split(str, ' ')) + if EndsAfterWord(str) then [""] else []
  {
    hide FindChar, FindNotChar, WordsFrom;
    WordsArePieces(str);
    rv := [];
    if str == "" {
      NoWords(str);
      return;
    }
    var sowPosn := FindNotChar(str, SPACE, 0);
    if sowPosn.None? {
      NoWords(str);
      return;
    }
    FirstWord(str);
    while true
      invariant sowPosn.Some? ==>
                  && sowPosn.value < |str| && str[sowPosn.value] != SPACE
                  && WordsFrom(str, 0) == rv + WordsFrom(str, sowPosn.value)
      invariant sowPosn.None? ==> WordsFrom(str, 0) == rv && EndsAfterWord(str)
      decreases if sowPosn.Some? then |str| - sowPosn.value else 0
    {
      if sowPosn.None? {
        // find_first_of from npos finds nothing, and substring from npos is empty
        return rv + [""];
      }
      WordStep(str, sowPosn.value, rv, WordsFrom(str, 0));
      var posn := FindChar(str, SPACE, sowPosn.value);
      if posn.None? {
        return rv + [Substring(str, sowPosn.value, |str| - sowPosn.value)];
      }
      rv := rv + [Substring(str, sowPosn.value, posn.value - sowPosn.value)];
      sowPosn := FindNotChar(str, SPACE, posn.value);
    }
  }

  lemma NoWords(s: string)
    requires FindNotChar(s, SPACE, 0).None?
    ensures WordsFrom(s, 0) == [] && !EndsAfterWord(s)
  {
  }

  lemma {:induction false} FirstWord(s: string)
    requires FindNotChar(s, SPACE, 0).Some?
    ensures WordsFrom(s, 0) == WordsFrom(s, FindNotChar(s, SPACE, 0).value)
  {
    var b := FindNotChar(s, SPACE, 0).value;
    assert FindNotChar(s, SPACE, b) == Some(b);
  }

  // ----- squash

  /** squash(str.substr(p), c): every run of c becomes one c. */
  function SquashFrom(s: string, c: char, p: nat): string
    requires p <= |s|
    decreases |s| - p
  {
    if p == |s| then ""
    else if s[p] == c && p + 1 < |s| && s[p + 1] == c then SquashFrom(s, c, p + 1)
    else [s[p]] + SquashFrom(s, c, p + 1)
  }

  function Squash(s: string, c: char): string {
    SquashFrom(s, c, 0)
  }

  lemma {:induction false} SquashKeeps(s: string, c: char, p: nat, q: nat)
    requires p <= q <= |s| && forall i :: p <= i < q ==> s[i] != c
    ensures SquashFrom(s, c, p) == s[p..q] + SquashFrom(s, c, q)
    decreases q - p
  {
    if p < q {
      SquashKeeps(s, c, p + 1, q);
      var rest := SquashFrom(s, c, q);
      calc {
        SquashFrom(s, c, p);
        [s[p]] + (s[p + 1..q] + rest);
        { assert s[p..q] == [s[p]] + s[p + 1..q]; }
        s[p..q] + rest;
      }
    }
  }

  lemma {:induction false} SquashRun(s: string, c: char, p: nat, q: nat)
    requires p < q <= |s| && (forall i :: p <= i < q ==> s[i] == c) && (q < |s| ==> s[q] != c)
    ensures SquashFrom(s, c, p) == [c] + SquashFrom(s, c, q)
    decreases q - p
  {
    if p + 1 < q {
      SquashRun(s, c, p + 1, q);
    }
  }

  /** The words from b on, with the empty last element that words adds. */
  ghost function Listed(s: string, b: nat): seq<string>
    requires b <= |s| && s != ""
  {
    WordsFrom(s, b) + if s[|s| - 1] == SPACE then [""] else []
  }

  lemma {:induction false} ListedCons(s: string, b: nat, e: nat)
    requires b <= e < |s| && s[b] != SPACE && FindChar(s, SPACE, b) == Some(e)
    ensures match FindNotChar(s, SPACE, e)
            case None => Listed(s, b) == [s[b..e]] + [""]
            case Some(b') => Listed(s, b) == [s[b..e]] + Listed(s, b')
  {
    hide FindChar, FindNotChar, WordsFrom;
    WordStep(s, b, [], WordsFrom(s, b));
  }

  lemma {:induction false} JoinedWordsFrom(s: string, b: nat)
    requires b < |s| && s[b] != SPACE
    ensures JoinSpec(Listed(s, b), [SPACE]) == SquashFrom(s, SPACE, b)
    ensures Listed(s, b) != [] && Listed(s, b)[0] != "" && Free(Listed(s, b), SPACE)
    decreases |s| - b
  {
    hide FindChar, FindNotChar, WordsFrom, Listed, SquashFrom, JoinSpec;
    var r := FindChar(s, SPACE, b);
    if r.None? {
      LastWord(s, b);
    } else {
      var e := r.value;
      SquashKeeps(s, SPACE, b, e);
      ListedCons(s, b, e);
      var next := FindNotChar(s, SPACE, e);
      SquashRun(s, SPACE, e, if next.Some? then next.value else |s|);
      if next.None? {
        JoinLastEmpty(s[b..e]);
        SquashNothing(s);
        FreeCons(s[b..e], [""], SPACE);
      } else {
        JoinedWordsFrom(s, next.value);
        JoinCons(s[b..e], Listed(s, next.value), [SPACE]);
        FreeCons(s[b..e], Listed(s, next.value), SPACE);
      }
    }
  }

  lemma {:induction false} LastWord(s: string, b: nat)
    requires b < |s| && s[b] != SPACE && FindChar(s, SPACE, b).None?
    ensures Listed(s, b) == [s[b..]]
    ensures JoinSpec([s[b..]], [SPACE]) == SquashFrom(s, SPACE, b)
  {
    WordStep(s, b, [], WordsFrom(s, b));
    SquashKeeps(s, SPACE, b, |s|);
    assert s[b..|s|] == s[b..];
  }

  lemma {:induction false} JoinLastEmpty(w: string)
    ensures JoinSpec([w] + [""], [SPACE]) == w + [SPACE]
  {
    assert ([w] + [""])[1..] == [""];
  }

  lemma SquashNothing(s: string)
    ensures SquashFrom(s, SPACE, |s|) == ""
  {
  }

  /** The documented reading of words, "squash on space, then split on space", holds
      exactly for texts that do not begin with a space. */
  lemma {:induction false} WordsIsSquashThenSplit(s: string)
    ensures WordsResult(s) == Split(Squash(s, ' '), ' ') <==> s == "" || s[0] != ' '
  {
    hide FindChar, FindNotChar, WordsFrom;
    var t := Squash(s, SPACE);
    if s == "" {
      NoWords(s);
    } else if s[0] != SPACE {
      JoinedWordsFrom(s, 0);
      assert WordsResult(s) == Listed(s, 0);
      assert t != "" by { SquashStart(s); }
      assert t[0..] == t;
      SplitUnique(t, SPACE, 0, WordsResult(s));
    } else {
      SquashStart(s);
      FindCharIs(t, SPACE, 0, 0);
      assert Split(t, SPACE)[0] == t[0..0];
      WordsArePieces(s);
    }
  }

  lemma {:induction false} SquashStartFrom(s: string, c: char, p: nat)
    requires p < |s|
    ensures SquashFrom(s, c, p) != "" && SquashFrom(s, c, p)[0] == s[p]
    decreases |s| - p
  {
    if s[p] == c && p + 1 < |s| && s[p + 1] == c {
      SquashStartFrom(s, c, p + 1);
    }
  }

  lemma {:induction false} SquashStart(s: string)
    requires s != ""
    ensures Squash(s, SPACE) != "" && Squash(s, SPACE)[0] == s[0]
  {
    SquashStartFrom(s, SPACE, 0);
  }

  // ----- starts_of_words and nth_word

  /** A word w stands at b, with nothing but spaces from its end to end. */
  ghost predicate WordAt(s: string, b: nat, w: string, end: nat) {
    && b + |w| <= end <= |s|
    && w == s[b..b + |w|]
    && forall i :: b + |w| <= i < end ==> s[i] == SPACE
  }

  ghost function EndOf(s: string, starts: seq<nat>, k: nat): nat {
    if k + 1 < |starts| then starts[k + 1] else |s|
  }

  /** starts lists where the words begin. */
  ghost predicate Starts(s: string, starts: seq<nat>, words: seq<string>) {
    |starts| == |words| && forall k :: 0 <= k < |words| ==> WordAt(s, starts[k], words[k], EndOf(s, starts, k))
  }

  method StartsOfWords(s: string) returns (rv: seq<nat>)
    ensures Starts(s, rv, NonEmpty(Split(s, SPACE)))
  {
    hide FindChar, FindNotChar, WordsFrom;
    WordsArePieces(s);
    rv := [];
    if s == "" {
      NoWords(s);
      return;
    }
    var posn := FindNotChar(s, SPACE, 0);
    if posn.None? {
      NoWords(s);
      return;
    }
    FirstWord(s);
    rv := [posn.value];
    ghost var done: seq<string> := [];
    while true
      invariant posn.Some?
      invariant rv != [] && rv[|rv| - 1] == posn.value < |s| && s[posn.value] != SPACE
      invariant WordsFrom(s, 0) == done + WordsFrom(s, posn.value)
      invariant |done| == |rv| - 1
      invariant forall k :: 0 <= k < |done| ==> WordAt(s, rv[k], done[k], EndOf(s, rv, k))
      decreases |s| - posn.value
    {
      var start := posn.value;
      WordStep(s, start, done, WordsFrom(s, 0));
      posn := FindChar(s, SPACE, start);
      if posn.None? {
        assert s[start..] == s[start..start + |s[start..]|];
        return;
      }
      done := done + [s[start..posn.value]];
      posn := FindNotChar(s, SPACE, posn.value);
      if posn.None? {
        return;
      }
      rv := rv + [posn.value];
    }
  }

  function RemoveLeading(cs: string, c: char): string {
    match FindNotChar(cs, c, 0)
    case None => ""
    case Some(p) => Substring(cs, p, |cs| - p)
  }

  method RemoveTrailing(cs: string, c: char) returns (rv: string)
    ensures |rv| <= |cs| && rv == cs[..|rv|]
    ensures rv != "" ==> rv[|rv| - 1] != c
    ensures forall i :: |rv| <= i < |cs| ==> cs[i] == c
  {
    rv := cs;
    while |rv| != 0 && rv[|rv| - 1] == c
      invariant |rv| <= |cs| && rv == cs[..|rv|]
      invariant forall i :: |rv| <= i < |cs| ==> cs[i] == c
    {
      rv := Substring(rv, 0, |rv| - 1);
    }
  }

  /** nth_word picks element n - wrt of what words calls the words, or gives "". */
  method NthWord(s: string, n: nat, wrt: nat) returns (rv: string)
    ensures var v := NonEmpty(Split(s, SPACE)); rv == if wrt <= n < wrt + |v| then v[n - wrt] else ""
  {
    if n < wrt {
      return "";
    }
    var actual := n - wrt;
    var starts := StartsOfWords(s);
    if actual >= |starts| {
      return "";
    }
    ghost var v := NonEmpty(Split(s, SPACE));
    var posn1 := starts[actual];
    var posn2 := if actual + 1 >= |starts| then |s| else starts[actual + 1];
    WordHasNoSpace(s, actual);
    var w := RemoveLeading(Substring(s, posn1, posn2 - posn1), SPACE);
    PaddedWord(s, posn1, v[actual], posn2);
    rv := RemoveTrailing(w, SPACE);
    TrimmedWord(v[actual], w, rv);
  }

  lemma {:induction false} PaddedWord(s: string, b: nat, word: string, end: nat)
    requires WordAt(s, b, word, end) && word != "" && SPACE !in word
    ensures var w := RemoveLeading(Substring(s, b, end - b), SPACE);
            word <= w && forall i :: |word| <= i < |w| ==> w[i] == SPACE
  {
    var w := Substring(s, b, end - b);
    assert w == s[b..end];
    assert w[0] == word[0] == s[b];
    assert FindNotChar(w, SPACE, 0) == Some(0);
    assert Substring(w, 0, |w|) == w;
    assert w[..|word|] == word;
  }

  lemma {:induction false} TrimmedWord(word: string, w: string, t: string)
    requires word != "" && SPACE !in word
    requires word <= w && forall i :: |word| <= i < |w| ==> w[i] == SPACE
    requires |t| <= |w| && t == w[..|t|] && (t != "" ==> t[|t| - 1] != SPACE)
    requires forall i :: |t| <= i < |w| ==> w[i] == SPACE
    ensures t == word
  {
    assert word[|word| - 1] != SPACE && w[|word| - 1] == word[|word| - 1];
  }

  lemma {:induction false} NonEmptyElements(v: seq<string>, k: nat)
    requires k < |NonEmpty(v)|
    ensures NonEmpty(v)[k] in v
  {
    var skip := if v[0] == "" then 0 else 1;
    if k >= skip { NonEmptyElements(v[1..], k - skip); }
  }

  lemma {:induction false} WordHasNoSpace(s: string, k: nat)
    requires k < |NonEmpty(Split(s, SPACE))|
    ensures var w := NonEmpty(Split(s, SPACE))[k]; w != "" && SPACE !in w
  {
    NonEmptyElements(Split(s, SPACE), k);
    JoinOfSplit(s, SPACE);
  }
}
