/**
  Squeezing runs of gap characters (`replace(/<gap>+/g, filler)`) and trimming the ends, shown to
  be the same as splitting a text into words and joining them again with one filler.
 */
module Tidy {

  type Gap = char -> bool

  // ----- Runs -----

  /** Each run of gaps becomes one filler, written where the run ends. */
  function Squeeze(s: string, gap: Gap, filler: char): (r: string)
    ensures |r| <= |s|
  {
    if s == [] then []
    else if !gap(s[0]) then [s[0]] + Squeeze(s[1..], gap, filler)
    else if |s| > 1 && gap(s[1]) then Squeeze(s[1..], gap, filler)
    else [filler] + Squeeze(s[1..], gap, filler)
  }

  function TrimStart(s: string, gap: Gap): string {
    if s == [] || !gap(s[0]) then s else TrimStart(s[1..], gap)
  }

  function TrimEnd(s: string, gap: Gap): string {
    if s == [] || !gap(s[|s| - 1]) then s else TrimEnd(s[..|s| - 1], gap)
  }

  function Trim(s: string, gap: Gap): string {
    TrimEnd(TrimStart(s, gap), gap)
  }

  function Clean(s: string, gap: Gap, filler: char): string {
    Trim(Squeeze(s, gap, filler), gap)
  }

  // ----- Words -----

  /** The maximal runs of characters that are not gaps. */
  function Words(s: string, gap: Gap): (words: seq<string>)
    ensures words == [] <==> forall i | 0 <= i < |s| :: gap(s[i])
  {
    if s == [] then []
    else if gap(s[0]) then Words(s[1..], gap)
    else if |s| == 1 || gap(s[1]) then [[s[0]]] + Words(s[1..], gap)
    else
      var words := Words(s[1..], gap);
      [[s[0]] + words[0]] + words[1..]
  }

  function Join(words: seq<string>, filler: char): string {
    if words == [] then [] else if |words| == 1 then words[0] else words[0] + [filler] + Join(words[1..], filler)
  }

  predicate AreWords(words: seq<string>, gap: Gap) {
    forall w | w in words :: w != [] && forall i | 0 <= i < |w| :: !gap(w[i])
  }

  /** No gap but single fillers between words. */
  predicate IsTidy(s: string, gap: Gap, filler: char) {
    forall i | 0 <= i < |s| && gap(s[i]) :: s[i] == filler && 0 < i && i + 1 < |s| && !gap(s[i + 1])
  }

  lemma {:induction false} WordsAreWords(s: string, gap: Gap)
    ensures AreWords(Words(s, gap), gap)
  {
    if s != [] {
      WordsAreWords(s[1..], gap);
      if !gap(s[0]) && |s| > 1 && !gap(s[1]) {
        assert Words(s[1..], gap)[0] in Words(s[1..], gap);
      }
    }
  }

  lemma {:induction false} JoinIsTidy(words: seq<string>, gap: Gap, filler: char)
    requires AreWords(words, gap)
    ensures IsTidy(Join(words, filler), gap, filler)
    ensures var s := Join(words, filler);
            if words == [] then s == [] else s != [] && !gap(s[0]) && !gap(s[|s| - 1])
  {
    if words != [] {
      assert words[0] in words;
      if |words| > 1 {
        assert forall w | w in words[1..] :: w in words;
        JoinIsTidy(words[1..], gap, filler);
        var w, rest := words[0], Join(words[1..], filler);
        var s := w + [filler] + rest;
        forall i | 0 <= i < |s| && gap(s[i])
          ensures s[i] == filler && 0 < i && i + 1 < |s| && !gap(s[i + 1])
        {
          if i > |w| {
            assert s[i] == rest[i - |w| - 1];
          }
        }
      }
    }
  }

  /** Squeezing leaves the words, with a filler in place of any gaps before, between and after them. */
  lemma {:induction false} SqueezeIsJoin(s: string, gap: Gap, filler: char)
    ensures Squeeze(s, gap, filler) == Spread(s, gap, filler)
  {
    hide Spread;
    if s == [] {
      NoWords(gap, filler);
    } else {
      SqueezeIsJoin(s[1..], gap, filler);
      if gap(s[0]) {
        GapSkipped(s, gap, filler);
      } else if |s| == 1 || gap(s[1]) {
        WordEnds(s, gap, filler);
      } else {
        WordGoesOn(s, gap, filler);
      }
    }
  }

  lemma NoWords(gap: Gap, filler: char)
    ensures Words("", gap) == [] && Join([], filler) == "" && Tail("", gap, filler) == ""
    ensures Spread("", gap, filler) == ""
  {
  }

  lemma GapInWords(s: string, gap: Gap, filler: char)
    requires s != [] && gap(s[0])
    ensures Words(s, gap) == Words(s[1..], gap) && Tail(s, gap, filler) == Tail(s[1..], gap, filler)
  {
  }

  lemma GapSkipped(s: string, gap: Gap, filler: char)
    requires s != [] && gap(s[0])
    ensures Spread(s, gap, filler)
         == (if |s| > 1 && gap(s[1]) then [] else [filler]) + Spread(s[1..], gap, filler)
  {
    hide Words, Join, Tail;
    GapInWords(s, gap, filler);
  }

  lemma JoinFirst(w: string, words: seq<string>, filler: char)
    ensures Join([w] + words, filler) == if words == [] then w else w + [filler] + Join(words, filler)
  {
    assert ([w] + words)[1..] == words;
  }

  lemma OneLetter(s: string, gap: Gap)
    requires s != [] && !gap(s[0]) && (|s| == 1 || gap(s[1]))
    ensures Words(s, gap) == [[s[0]]] + Words(s[1..], gap)
    ensures |s| == 1 ==> Words(s[1..], gap) == []
  {
  }

  lemma LastWord(s: string, gap: Gap, filler: char)
    requires s != [] && !gap(s[0]) && (|s| == 1 || gap(s[1]))
    ensures Words(s, gap) == [[s[0]]] + Words(s[1..], gap)
    ensures if |s| == 1 then Tail(s, gap, filler) == []
            else if Words(s[1..], gap) == [] then Tail(s, gap, filler) == [filler] && Tail(s[1..], gap, filler) == []
            else Tail(s, gap, filler) == Tail(s[1..], gap, filler)
  {
    hide Words;
    OneLetter(s, gap);
    if |s| > 1 {
      var rest := s[1..];
      assert rest[|rest| - 1] == s[|s| - 1];
    }
  }

  lemma WordEnds(s: string, gap: Gap, filler: char)
    requires s != [] && !gap(s[0]) && (|s| == 1 || gap(s[1]))
    ensures Spread(s, gap, filler) == [s[0]] + Spread(s[1..], gap, filler)
  {
    hide Words, Join, Tail;
    LastWord(s, gap, filler);
    JoinFirst([s[0]], Words(s[1..], gap), filler);
    NoWords(gap, filler);
  }

  lemma WordGoesOn(s: string, gap: Gap, filler: char)
    requires |s| > 1 && !gap(s[0]) && !gap(s[1])
    ensures Spread(s, gap, filler) == [s[0]] + Spread(s[1..], gap, filler)
  {
    var words := Words(s[1..], gap);
    assert words != [] by {
      assert !gap(s[1..][0]);
    }
    var first := [s[0]] + words[0];
    assert Words(s, gap) == [first] + words[1..];
    assert words == [words[0]] + words[1..];
    hide Words, Join;
    JoinFirst(first, words[1..], filler);
    JoinFirst(words[0], words[1..], filler);
  }

  function Lead(s: string, gap: Gap, filler: char): string {
    if s != [] && gap(s[0]) then [filler] else []
  }

  function Tail(s: string, gap: Gap, filler: char): string {
    if Words(s, gap) != [] && gap(s[|s| - 1]) then [filler] else []
  }

  function Spread(s: string, gap: Gap, filler: char): string {
    Lead(s, gap, filler) + Join(Words(s, gap), filler) + Tail(s, gap, filler)
  }

  lemma TrimFillers(before: string, s: string, after: string, gap: Gap, filler: char)
    requires gap(filler) && (before == [] || before == [filler]) && (after == [] || after == [filler])
    requires s == [] || (!gap(s[0]) && !gap(s[|s| - 1]))
    requires s == [] ==> after == []
    ensures Trim(before + s + after, gap) == s
  {
    var whole, rest := before + s + after, s + after;
    assert TrimStart(rest, gap) == rest;
    if before == [] {
      assert whole == rest;
    } else {
      assert whole[0] == filler && whole[1..] == rest;
    }
    if after == [] {
      assert rest == s;
    } else {
      assert TrimStart(whole, gap) == rest && TrimEnd(s, gap) == s;
      assert rest[|rest| - 1] == filler && rest[..|rest| - 1] == s;
    }
  }

  /** Collapsing runs and trimming is the same as joining the words by single fillers. */
  lemma CleanIsJoin(s: string, gap: Gap, filler: char)
    requires gap(filler)
    ensures Clean(s, gap, filler) == Join(Words(s, gap), filler)
    ensures IsTidy(Clean(s, gap, filler), gap, filler)
  {
    var words := Words(s, gap);
    WordsAreWords(s, gap);
    JoinIsTidy(words, gap, filler);
    SqueezeIsJoin(s, gap, filler);
    TrimFillers(Lead(s, gap, filler), Join(words, filler), Tail(s, gap, filler), gap, filler);
  }

  lemma {:induction false} SqueezeTidy(s: string, gap: Gap, filler: char)
    requires forall i | 0 <= i < |s| && gap(s[i]) :: s[i] == filler && (i + 1 < |s| ==> !gap(s[i + 1]))
    ensures Squeeze(s, gap, filler) == s
  {
    if s != [] {
      SqueezeTidy(s[1..], gap, filler);
    }
  }

  /** The tidy texts are exactly the ones that cleaning leaves alone. */
  lemma CleanFixesTidy(s: string, gap: Gap, filler: char)
    requires gap(filler)
    ensures Clean(s, gap, filler) == s <==> IsTidy(s, gap, filler)
  {
    if IsTidy(s, gap, filler) {
      SqueezeTidy(s, gap, filler);
      TrimFillers([], s, [], gap, filler);
      assert [] + s + [] == s;
    } else {
      CleanIsJoin(s, gap, filler);
    }
  }

  lemma {:induction false} TrimStartIs(s: string, gap: Gap) returns (k: nat)
    ensures k <= |s| && TrimStart(s, gap) == s[k..]
    ensures forall i | 0 <= i < k :: gap(s[i])
    ensures k < |s| ==> !gap(s[k])
  {
    if s == [] || !gap(s[0]) {
      k := 0;
    } else {
      k := TrimStartIs(s[1..], gap);
      forall i | 0 <= i < k + 1
        ensures gap(s[i])
      {
        assert i > 0 ==> s[i] == s[1..][i - 1];
      }
      k := k + 1;
    }
  }

  lemma {:induction false} TrimEndIs(s: string, gap: Gap) returns (k: nat)
    ensures k <= |s| && TrimEnd(s, gap) == s[..k]
    ensures forall i | k <= i < |s| :: gap(s[i])
    ensures k > 0 ==> !gap(s[k - 1])
  {
    if s == [] || !gap(s[|s| - 1]) {
      k := |s|;
    } else {
      var rest := s[..|s| - 1];
      k := TrimEndIs(rest, gap);
      assert rest[..k] == s[..k];
      assert forall i | k <= i < |rest| :: gap(rest[i]) && rest[i] == s[i];
    }
  }

  /** Trimming takes away gaps at both ends, all of them, and nothing else. */
  lemma TrimIs(s: string, gap: Gap) returns (before: string, after: string)
    ensures s == before + Trim(s, gap) + after
    ensures (forall i | 0 <= i < |before| :: gap(before[i])) && forall i | 0 <= i < |after| :: gap(after[i])
    ensures var t := Trim(s, gap); t != [] ==> !gap(t[0]) && !gap(t[|t| - 1])
  {
    hide TrimStart, TrimEnd;
    var k := TrimStartIs(s, gap);
    var t := s[k..];
    var n := TrimEndIs(t, gap);
    before, after := s[..k], t[n..];
    assert forall i | 0 <= i < |after| :: after[i] == t[n + i];
  }

  lemma {:induction false} SameWords(s: string, gap: Gap, other: Gap)
    requires forall i | 0 <= i < |s| :: gap(s[i]) == other(s[i])
    ensures Words(s, gap) == Words(s, other)
  {
    if s != [] {
      assert forall i | 0 < i < |s| :: s[i] == s[1..][i - 1];
      SameWords(s[1..], gap, other);
    }
  }
}
