/** Normalisation of event titles (packages/shared/src/normalize-title.ts). */
module Title {
  import opened Letters
  import Tidy

  /** What a word of a title starts after: white space, a hyphen or a dash. */
  predicate IsSeparator(c: char) {
    IsSpace(c) || c == '-' || c == '–' || c == '—'
  }

  function CountLetters(s: string): nat {
    if s == [] then 0 else (if IsLetter(s[0]) then 1 else 0) + CountLetters(s[1..])
  }

  function CountUpper(s: string): nat {
    if s == [] then 0 else (if IsUpper(s[0]) then 1 else 0) + CountUpper(s[1..])
  }

  /** More than 0.6 of the letters are capitals. */
  predicate MostlyUpper(s: string) {
    5 * CountUpper(s) > 3 * CountLetters(s)
  }

  predicate WordStart(s: string, i: nat)
    requires i < |s|
  {
    i == 0 || IsSeparator(s[i - 1])
  }

  function CapitalizeWords(s: string): (r: string)
    ensures |r| == |s|
    ensures forall i | 0 <= i < |s| :: r[i] == if WordStart(s, i) then Upper(s[i]) else s[i]
  {
    seq(|s|, i requires 0 <= i < |s| => if WordStart(s, i) then Upper(s[i]) else s[i])
  }

  function CapitalizeFirst(s: string): string
    requires s != []
  {
    [Upper(s[0])] + s[1..]
  }

  function Collapse(title: string): string {
    Tidy.Clean(title, IsSpace, ' ')
  }

  function Recase(s: string): (r: string) {
    if CountLetters(s) == 0 then s
    else if MostlyUpper(s) then CapitalizeWords(ToLowerCase(s))
    else if s != [] && IsLower(s[0]) then CapitalizeFirst(s)
    else s
  }

  function NormalizeEventTitle(title: string): string {
    Recase(Collapse(title))
  }

  // ----- What normalisation keeps -----

  lemma RecaseKeepsLetters(s: string)
    ensures |Recase(s)| == |s| && ToLowerCase(Recase(s)) == ToLowerCase(s)
  {
    var r := Recase(s);
    assert forall i | 0 <= i < |s| :: Lower(r[i]) == Lower(s[i]);
    assert ToLowerCase(r) == ToLowerCase(s);
  }

  lemma SameLettersSameSpaces(a: string, b: string)
    requires ToLowerCase(a) == ToLowerCase(b)
    requires Tidy.IsTidy(a, IsSpace, ' ')
    ensures Tidy.IsTidy(b, IsSpace, ' ')
  {
    assert |a| == |b| by {
      assert |ToLowerCase(a)| == |a| && |ToLowerCase(b)| == |b|;
    }
    forall i | 0 <= i < |b|
      ensures IsSpace(a[i]) == IsSpace(b[i]) && (IsSpace(b[i]) ==> a[i] == b[i])
    {
      assert ToLowerCase(a)[i] == Lower(a[i]) && ToLowerCase(b)[i] == Lower(b[i]);
    }
  }

  /**
    Up to case, normalising a title does nothing but collapse its white space; and a normalised
    title has no white space left to collapse.
   */
  lemma NormalizeKeepsLetters(title: string)
    ensures ToLowerCase(NormalizeEventTitle(title)) == ToLowerCase(Collapse(title))
    ensures Collapse(NormalizeEventTitle(title)) == NormalizeEventTitle(title)
  {
    var s := Collapse(title);
    Tidy.CleanIsJoin(title, IsSpace, ' ');
    RecaseKeepsLetters(s);
    SameLettersSameSpaces(s, Recase(s));
    Tidy.CleanFixesTidy(Recase(s), IsSpace, ' ');
  }

  // ----- Fixpoints -----

  lemma {:induction false} SameLettersSameCount(a: string, b: string)
    requires ToLowerCase(a) == ToLowerCase(b)
    ensures CountLetters(a) == CountLetters(b)
  {
    assert |a| == |b| by {
      assert |ToLowerCase(a)| == |a| && |ToLowerCase(b)| == |b|;
    }
    if a != [] {
      assert ToLowerCase(a)[0] == Lower(a[0]) && ToLowerCase(b)[0] == Lower(b[0]);
      assert ToLowerCase(a[1..]) == ToLowerCase(a)[1..] && ToLowerCase(b[1..]) == ToLowerCase(b)[1..];
      SameLettersSameCount(a[1..], b[1..]);
    }
  }

  /** Recasing a title that was put in title case changes nothing. */
  lemma TitleCaseIsFixed(s: string)
    ensures Recase(CapitalizeWords(ToLowerCase(s))) == CapitalizeWords(ToLowerCase(s))
  {
    var r := CapitalizeWords(ToLowerCase(s));
    assert forall i | 0 <= i < |s| :: Lower(r[i]) == Lower(s[i]);
    assert ToLowerCase(r) == ToLowerCase(s);
    assert r != [] ==> !IsLower(r[0]);
  }

  /** Capitalising the first letter makes a mostly-capitals title that is not in title case. */
  predicate TurnsMostlyUpper(s: string) {
    && s != [] && IsLower(s[0])
    && !MostlyUpper(s)
    && 5 * (CountUpper(s) + 1) > 3 * CountLetters(s)
    && MiscasedAfterFirst(s)
  }

  /** Some letter but the first is a capital inside a word or is small at the start of a word. */
  predicate MiscasedAfterFirst(s: string) {
    exists i | 1 <= i < |s| :: IsLetter(s[i]) && IsUpper(s[i]) != IsSeparator(s[i - 1])
  }

  lemma SeparatorsHaveNoCase(s: string, i: nat)
    requires i < |s|
    ensures WordStart(ToLowerCase(s), i) == WordStart(s, i)
  {
    if i > 0 {
      assert ToLowerCase(s)[i - 1] == Lower(s[i - 1]);
    }
  }

  lemma CapitalizeFirstCounts(s: string)
    requires s != [] && IsLower(s[0])
    ensures CountUpper(CapitalizeFirst(s)) == CountUpper(s) + 1
    ensures CountLetters(CapitalizeFirst(s)) == CountLetters(s) > 0
  {
    assert CapitalizeFirst(s)[1..] == s[1..];
  }

  lemma TitleCaseDiffers(s: string)
    requires s != [] && IsLower(s[0])
    ensures CapitalizeWords(ToLowerCase(CapitalizeFirst(s))) != CapitalizeFirst(s) <==> MiscasedAfterFirst(s)
  {
    var c := CapitalizeFirst(s);
    var t := CapitalizeWords(ToLowerCase(c));
    forall i | 1 <= i < |s|
      ensures t[i] != c[i] <==> IsLetter(s[i]) && IsUpper(s[i]) != IsSeparator(s[i - 1])
    {
      SeparatorsHaveNoCase(c, i);
      assert IsSeparator(c[i - 1]) == IsSeparator(s[i - 1]);
    }
    assert t[0] == c[0];
    assert t == c <==> forall i | 1 <= i < |s| :: t[i] == c[i];
  }

  lemma RecaseTwice(s: string)
    ensures Recase(Recase(s)) != Recase(s) <==> TurnsMostlyUpper(s)
    ensures Recase(Recase(Recase(s))) == Recase(Recase(s))
  {
    hide ToLowerCase, CapitalizeWords, CountLetters, CountUpper, MiscasedAfterFirst;
    if CountLetters(s) == 0 {
      if s != [] && IsLower(s[0]) {
        CapitalizeFirstCounts(s);
      }
    } else if MostlyUpper(s) {
      TitleCaseIsFixed(s);
    } else if s != [] && IsLower(s[0]) {
      CapitalizeFirstCounts(s);
      TitleCaseIsFixed(CapitalizeFirst(s));
      TitleCaseDiffers(s);
    }
  }

  /** A title is settled after at most two normalisations. */
  lemma SettledAfterTwo(title: string)
    ensures var twice := NormalizeEventTitle(NormalizeEventTitle(title));
            NormalizeEventTitle(twice) == twice
  {
    NormalizeKeepsLetters(title);
    NormalizeKeepsLetters(NormalizeEventTitle(title));
    RecaseTwice(Collapse(title));
  }

  /** Exactly which titles need the second normalisation. */
  lemma SettledAfterOne(title: string)
    ensures NormalizeEventTitle(NormalizeEventTitle(title)) == NormalizeEventTitle(title)
       <==> !TurnsMostlyUpper(Collapse(title))
  {
    NormalizeKeepsLetters(title);
    RecaseTwice(Collapse(title));
  }

  /** "аБв" becomes "АБв" and then "Абв". */
  lemma NotIdempotent()
    ensures NormalizeEventTitle("аБв") == "АБв" && NormalizeEventTitle("АБв") == "Абв"
  {
    hide Tidy.Clean, ToLowerCase, CapitalizeWords, CountLetters, CountUpper;
    OneWord("аБв");
    OneWord("АБв");
    ThreeLetters("аБв");
    ThreeLetters("АБв");
    InTitleCase();
  }

  lemma OneWord(s: string)
    requires |s| == 3 && IsLetter(s[0]) && IsLetter(s[1]) && IsLetter(s[2])
    ensures Collapse(s) == s
  {
    Tidy.CleanFixesTidy(s, IsSpace, ' ');
  }

  lemma InTitleCase()
    ensures CapitalizeWords(ToLowerCase("АБв")) == "Абв"
  {
    assert ToLowerCase("АБв") == "абв";
    var r := CapitalizeWords("абв");
    assert r[0] == 'А' && r[1] == 'б' && r[2] == 'в';
  }

  lemma ThreeLetters(s: string)
    requires |s| == 3 && IsLetter(s[0]) && IsUpper(s[1]) && IsLower(s[2])
    ensures CountLetters(s) == 3 && CountUpper(s) == if IsUpper(s[0]) then 2 else 1
  {
    var t := s[1..];
    assert t[1..] == [s[2]];
    assert CountLetters([s[2]]) == 1 && CountUpper([s[2]]) == 0;
  }

  // ----- Which letters are capitals -----

  /** Counting letters and capitals one by one. */
  lemma {:induction false} CountsAddUp(a: string, b: string)
    ensures CountLetters(a + b) == CountLetters(a) + CountLetters(b) && CountUpper(a + b) == CountUpper(a) + CountUpper(b)
    ensures |a| == 1 ==> CountLetters(a) == (if IsUpper(a[0]) || IsLower(a[0]) then 1 else 0)
    ensures |a| == 1 ==> CountUpper(a) == (if IsUpper(a[0]) then 1 else 0)
  {
    if a == "" {
      assert a + b == b;
    } else {
      CountsAddUp(a[1..], b);
      assert (a + b)[1..] == a[1..] + b;
      if |a| == 1 {
        assert a[1..] == "";
      }
    }
  }

  /** The letter at `i` begins the text, or follows white space, a hyphen or a dash. */
  predicate BeginsWord(s: string, i: nat)
    requires i < |s|
  {
    i == 0 || IsSpace(s[i - 1]) || s[i - 1] in {'-', '–', '—'}
  }

  lemma {:induction false} NoMoreUpperThanLetters(s: string)
    ensures CountUpper(s) <= CountLetters(s)
  {
    if s != "" {
      NoMoreUpperThanLetters(s[1..]);
    }
  }

  /**
    A title with more than six capitals in ten letters gets capitals exactly where words begin;
    another one is left as it is, but for a small letter at its very beginning.
   */
  lemma CapitalsOfTitle(title: string)
    ensures var (s, r) := (Collapse(title), NormalizeEventTitle(title));
            && |r| == |s|
            && if 10 * CountUpper(s) > 6 * CountLetters(s)
               then forall i | 0 <= i < |s| && IsLetter(s[i]) :: IsUpper(r[i]) <==> BeginsWord(s, i)
               else if s != "" && IsLower(s[0]) then r[0] == Upper(s[0]) && r[1..] == s[1..] else r == s
  {
    hide Collapse;
    var s, r := Collapse(title), NormalizeEventTitle(title);
    NoMoreUpperThanLetters(s);
    if 10 * CountUpper(s) > 6 * CountLetters(s) {
      var low := ToLowerCase(s);
      forall i | 0 <= i < |s| && IsLetter(s[i])
        ensures IsUpper(r[i]) <==> BeginsWord(s, i)
      {
        assert r[i] == if WordStart(low, i) then Upper(low[i]) else low[i];
        if i > 0 {
          DashesHaveNoCase(s[i - 1]);
        }
      }
    } else if s != "" && IsLower(s[0]) {
      assert CountLetters(s) > 0;
    }
  }

  lemma DashesHaveNoCase(c: char)
    ensures IsSeparator(Lower(c)) <==> IsSpace(c) || c in {'-', '–', '—'}
  {
  }
}
