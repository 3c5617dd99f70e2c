/**
  Slugs: transliterated titles, and the search for a free slug by numbering.
  The administration controller (packages/backend/src/admin/admin-events.controller.ts) and the
  group-creation script (packages/backend/scripts/auto-create-event-groups.ts) each have their own
  transliteration; both are here.
 */
module Slug {
  import opened Decimal
  import opened Letters
  import Tidy

  // ----- Transliteration -----

  /** The letters а to я in order, х apart. */
  const ROMAN: seq<string> := [
    "a", "b", "v", "g", "d", "e", "zh", "z", "i", "j", "k", "l", "m", "n", "o", "p",
    "r", "s", "t", "u", "f", "", "ts", "ch", "sh", "shch", "", "y", "", "e", "yu", "ya"]

  function Romanize(c: char, ha: string): string {
    if c == 'ё' then "yo"
    else if c == 'х' then ha
    else if 'а' <= c <= 'я' then ROMAN[c as int - 'а' as int]
    else [c]
  }

  function RomanizeAll(s: string, ha: string): string {
    if s == [] then [] else Romanize(s[0], ha) + RomanizeAll(s[1..], ha)
  }

  predicate IsSlugLetter(c: char) {
    'a' <= c <= 'z' || IsDigit(c)
  }

  predicate NotSlugLetter(c: char) {
    !IsSlugLetter(c)
  }

  predicate IsDash(c: char) {
    c == '-'
  }

  function Latin(text: string, ha: string): string {
    RomanizeAll(ToLowerCase(text), ha)
  }

  /** One dash dropped at each end. */
  function TrimOneDash(s: string): string {
    var t := if s != [] && s[0] == '-' then s[1..] else s;
    if t != [] && t[|t| - 1] == '-' then t[..|t| - 1] else t
  }

  const MAX_SLUG: nat := 120

  /** `transliterate` of the controller. */
  function AdminTransliterate(text: string): (slug: string)
    ensures |slug| <= MAX_SLUG
  {
    var s := TrimOneDash(Tidy.Squeeze(Latin(text, "kh"), NotSlugLetter, '-'));
    if |s| <= MAX_SLUG then s else s[..MAX_SLUG]
  }

  /** `transliterate` of the script. */
  function ScriptTransliterate(text: string): string {
    var s := Tidy.Trim(Tidy.Squeeze(Latin(text, "h"), NotSlugLetter, '-'), IsDash);
    Tidy.Squeeze(s, IsDash, '-')
  }

  /** Words of lower-case letters and digits joined by single dashes. */
  predicate IsSlug(s: string) {
    Tidy.IsTidy(s, NotSlugLetter, '-')
  }

  predicate OnlyDashGaps(s: string) {
    forall i | 0 <= i < |s| :: IsSlugLetter(s[i]) || s[i] == '-'
  }

  lemma TrimOneIsClean(s: string)
    ensures TrimOneDash(Tidy.Squeeze(s, NotSlugLetter, '-')) == Tidy.Clean(s, NotSlugLetter, '-')
  {
    var words := Tidy.Words(s, NotSlugLetter);
    var before, after := Tidy.Lead(s, NotSlugLetter, '-'), Tidy.Tail(s, NotSlugLetter, '-');
    Tidy.SqueezeIsJoin(s, NotSlugLetter, '-');
    Tidy.WordsAreWords(s, NotSlugLetter);
    Tidy.JoinIsTidy(words, NotSlugLetter, '-');
    Tidy.CleanIsJoin(s, NotSlugLetter, '-');
    TrimOneOf(before, Tidy.Join(words, '-'), after);
  }

  lemma TrimOneOf(before: string, s: string, after: string)
    requires (before == "" || before == "-") && (after == "" || after == "-")
    requires s == [] ==> after == []
    requires s != [] ==> s[0] != '-' && s[|s| - 1] != '-'
    ensures TrimOneDash(before + s + after) == s
  {
    var whole, rest := before + s + after, s + after;
    assert if before == [] then whole == rest else whole[0] == '-' && whole[1..] == rest;
    assert if after == [] then rest == s else rest[|s|] == '-' && rest[..|s|] == s;
  }

  lemma {:induction false} TrimStartAlike(s: string)
    requires OnlyDashGaps(s)
    ensures Tidy.TrimStart(s, IsDash) == Tidy.TrimStart(s, NotSlugLetter)
    ensures OnlyDashGaps(Tidy.TrimStart(s, IsDash))
  {
    if s != [] {
      TrimStartAlike(s[1..]);
    }
  }

  lemma {:induction false} TrimEndAlike(s: string)
    requires OnlyDashGaps(s)
    ensures Tidy.TrimEnd(s, IsDash) == Tidy.TrimEnd(s, NotSlugLetter)
  {
    if s != [] {
      TrimEndAlike(s[..|s| - 1]);
    }
  }

  lemma {:induction false} OnlyFillers(s: string)
    ensures OnlyDashGaps(Tidy.Squeeze(s, NotSlugLetter, '-'))
  {
    if s != [] {
      OnlyFillers(s[1..]);
    }
  }

  lemma ScriptIsClean(text: string)
    ensures ScriptTransliterate(text) == Tidy.Clean(Latin(text, "h"), NotSlugLetter, '-')
  {
    var q := Tidy.Squeeze(Latin(text, "h"), NotSlugLetter, '-');
    OnlyFillers(Latin(text, "h"));
    TrimStartAlike(q);
    TrimEndAlike(Tidy.TrimStart(q, IsDash));
    var s := Tidy.Clean(Latin(text, "h"), NotSlugLetter, '-');
    Tidy.CleanIsJoin(Latin(text, "h"), NotSlugLetter, '-');
    Tidy.SqueezeTidy(s, IsDash, '-');
  }

  lemma {:induction false} LatinOfSlug(s: string, ha: string)
    requires OnlyDashGaps(s)
    ensures Latin(s, ha) == s
  {
    assert ToLowerCase(s) == s;
    if s != [] {
      LatinOfSlug(s[1..], ha);
      assert ToLowerCase(s[1..]) == s[1..];
    }
  }

  /** The script's transliteration yields slugs and leaves slugs alone. */
  lemma ScriptTransliterateSettles(text: string)
    ensures IsSlug(ScriptTransliterate(text))
    ensures ScriptTransliterate(ScriptTransliterate(text)) == ScriptTransliterate(text)
  {
    var s := ScriptTransliterate(text);
    ScriptIsClean(text);
    Tidy.CleanIsJoin(Latin(text, "h"), NotSlugLetter, '-');
    ScriptIsClean(s);
    LatinOfSlug(s, "h");
    Tidy.CleanFixesTidy(s, NotSlugLetter, '-');
  }

  lemma NothingTransliterated()
    ensures ScriptTransliterate("") == ""
  {
    hide Latin;
    ScriptIsClean("");
    LatinOfSlug("", "h");
    Tidy.CleanFixesTidy("", NotSlugLetter, '-');
  }

  /** The slug before the controller cuts it to its length. */
  function FullSlug(text: string): string {
    Tidy.Clean(Latin(text, "kh"), NotSlugLetter, '-')
  }

  /** The cut falls just after a dash. */
  predicate CutAfterDash(text: string) {
    |FullSlug(text)| > MAX_SLUG && FullSlug(text)[MAX_SLUG - 1] == '-'
  }

  /**
    The controller's transliteration yields a slug, and leaves it alone when it is transliterated
    again, exactly when it was not cut just after a dash.
   */
  lemma AdminTransliterateSettles(text: string)
    ensures IsSlug(AdminTransliterate(text)) <==> !CutAfterDash(text)
    ensures AdminTransliterate(AdminTransliterate(text)) == AdminTransliterate(text) <==> !CutAfterDash(text)
  {
    hide Latin;
    var full, s := FullSlug(text), AdminTransliterate(text);
    TrimOneIsClean(Latin(text, "kh"));
    Tidy.CleanIsJoin(Latin(text, "kh"), NotSlugLetter, '-');
    assert s == if |full| <= MAX_SLUG then full else full[..MAX_SLUG];
    LatinOfSlug(s, "kh");
    TrimOneIsClean(s);
    Tidy.CleanFixesTidy(s, NotSlugLetter, '-');
    assert CutAfterDash(text) ==> NotSlugLetter(s[MAX_SLUG - 1]);
  }

  /** The shortest title that is its own slug. */
  lemma AdminTransliterateA()
    ensures AdminTransliterate("a") == "a"
  {
    hide Latin, TrimOneDash, Tidy.Squeeze, Tidy.Clean;
    TrimOneIsClean("a");
    LatinOfSlug("a", "kh");
    Tidy.CleanFixesTidy("a", NotSlugLetter, '-');
  }

  // ----- The search for a free slug -----

  function Numbered(stem: string, k: nat): string {
    stem + "-" + Print(k)
  }

  /** The first of stem-k, stem-(k+1), ... outside `taken`; each name tried leaves the set. */
  function FirstFreeNumbered(taken: set<string>, stem: string, k: nat): string
    decreases taken
  {
    var slug := Numbered(stem, k);
    if slug in taken then FirstFreeNumbered(taken - {slug}, stem, k + 1) else slug
  }

  function FirstFree(taken: set<string>, base: string, stem: string, k: nat): string {
    if base in taken then FirstFreeNumbered(taken, stem, k) else base
  }

  lemma NumberedInjective(stem: string, j: nat, k: nat)
    requires Numbered(stem, j) == Numbered(stem, k)
    ensures j == k
  {
    var prefix := stem + "-";
    assert Numbered(stem, j)[|prefix|..] == Print(j) && Numbered(stem, k)[|prefix|..] == Print(k);
    PrintInjective(j, k);
  }

  /** `slug` is the first free candidate: the base, or the least free number from `k` on. */
  ghost predicate IsFirstFree(taken: set<string>, base: string, stem: string, k: nat, slug: string) {
    && slug !in taken
    && if base !in taken then slug == base
       else exists j: nat :: k <= j && slug == Numbered(stem, j)
                             && forall i: nat | k <= i < j :: Numbered(stem, i) in taken
  }

  lemma {:induction false} FirstFreeNumberedIs(taken: set<string>, stem: string, k: nat) returns (j: nat)
    ensures k <= j && FirstFreeNumbered(taken, stem, k) == Numbered(stem, j) && Numbered(stem, j) !in taken
    ensures forall i: nat | k <= i < j :: Numbered(stem, i) in taken
    decreases taken
  {
    var slug := Numbered(stem, k);
    if slug in taken {
      j := FirstFreeNumberedIs(taken - {slug}, stem, k + 1);
      if Numbered(stem, j) == slug {
        NumberedInjective(stem, j, k);
      }
    } else {
      j := k;
    }
  }

  /** The search ends for every finite set of taken slugs, on the first free candidate and no other. */
  lemma FirstFreeIsFirst(taken: set<string>, base: string, stem: string, k: nat, slug: string)
    ensures IsFirstFree(taken, base, stem, k, slug) <==> slug == FirstFree(taken, base, stem, k)
  {
    var j := FirstFreeNumberedIs(taken, stem, k);
    if base in taken && IsFirstFree(taken, base, stem, k, slug) {
      var n: nat :| k <= n && slug == Numbered(stem, n) && forall i: nat | k <= i < n :: Numbered(stem, i) in taken;
      assert !(n < j) && !(j < n);
    }
  }

  // ----- The letters of a slug -----

  /** The Russian alphabet in Latin letters; the two programs differ only in the letter х. */
  lemma RomanLetters1(ha: string)
    ensures Romanize('а', ha) == "a" && Romanize('б', ha) == "b" && Romanize('в', ha) == "v"
    ensures Romanize('г', ha) == "g" && Romanize('д', ha) == "d"
  {
  }

  lemma RomanLetters2(ha: string)
    ensures Romanize('е', ha) == "e" && Romanize('ё', ha) == "yo" && Romanize('ж', ha) == "zh" && Romanize('з', ha) == "z"
  {
  }

  lemma RomanLetters3(ha: string)
    ensures Romanize('и', ha) == "i" && Romanize('й', ha) == "j" && Romanize('к', ha) == "k"
    ensures Romanize('л', ha) == "l" && Romanize('м', ha) == "m" && Romanize('н', ha) == "n"
    ensures Romanize('о', ha) == "o" && Romanize('п', ha) == "p" && Romanize('р', ha) == "r"
  {
  }

  lemma RomanLetters4(ha: string)
    ensures Romanize('с', ha) == "s" && Romanize('т', ha) == "t" && Romanize('у', ha) == "u"
    ensures Romanize('ф', ha) == "f" && Romanize('х', ha) == ha && Romanize('ц', ha) == "ts"
    ensures Romanize('ч', ha) == "ch" && Romanize('ш', ha) == "sh" && Romanize('щ', ha) == "shch"
  {
  }

  lemma RomanLetters5(ha: string)
    ensures Romanize('ъ', ha) == "" && Romanize('ы', ha) == "y" && Romanize('ь', ha) == ""
    ensures Romanize('э', ha) == "e" && Romanize('ю', ha) == "yu" && Romanize('я', ha) == "ya"
  {
  }

  /** Each letter is transliterated by itself, in lower case; all other characters stay as they are. */
  lemma {:induction false} LatinByLetter(a: string, b: string, ha: string)
    ensures Latin(a + b, ha) == Latin(a, ha) + Latin(b, ha)
    ensures |a| == 1 ==> Latin(a, ha) == Romanize(Lower(a[0]), ha)
    ensures |a| == 1 && !IsLetter(a[0]) ==> Latin(a, ha) == a
    decreases a
  {
    hide Romanize, Latin;
    NothingLatin(ha);
    if a == "" {
      assert a + b == b;
    } else {
      LatinByLetter(a[1..], b, ha);
      assert (a + b)[1..] == a[1..] + b && (a + b)[0] == a[0];
      LatinFirst(a, ha);
      LatinFirst(a + b, ha);
      if |a| == 1 {
        assert a[1..] == "";
        OtherCharactersStay(a[0], ha);
      }
    }
  }

  lemma NothingLatin(ha: string)
    ensures Latin("", ha) == ""
  {
    assert ToLowerCase("") == "";
  }

  lemma LatinFirst(s: string, ha: string)
    requires s != ""
    ensures Latin(s, ha) == Romanize(Lower(s[0]), ha) + Latin(s[1..], ha)
  {
    assert ToLowerCase(s)[1..] == ToLowerCase(s[1..]) && ToLowerCase(s)[0] == Lower(s[0]);
  }

  lemma OtherCharactersStay(c: char, ha: string)
    ensures !IsLetter(c) ==> Romanize(Lower(c), ha) == [c]
    ensures 'a' <= c <= 'z' ==> Romanize(Lower(c), ha) == [c]
  {
  }

  /** A slug of the controller is the words of the transliterated title joined by dashes, the first 120 characters of it. */
  lemma AdminSlugIsWords(text: string)
    ensures var full := Tidy.Join(Tidy.Words(Latin(text, "kh"), c => !('a' <= c <= 'z' || '0' <= c <= '9')), '-');
            AdminTransliterate(text) == if |full| <= 120 then full else full[..120]
  {
    hide Latin;
    var gap := c => !('a' <= c <= 'z' || '0' <= c <= '9');
    TrimOneIsClean(Latin(text, "kh"));
    Tidy.CleanIsJoin(Latin(text, "kh"), NotSlugLetter, '-');
    Tidy.SameWords(Latin(text, "kh"), NotSlugLetter, gap);
  }

  lemma ScriptSlugIsWords(text: string)
    ensures ScriptTransliterate(text)
         == Tidy.Join(Tidy.Words(Latin(text, "h"), c => !('a' <= c <= 'z' || '0' <= c <= '9')), '-')
  {
    hide Latin;
    var gap := c => !('a' <= c <= 'z' || '0' <= c <= '9');
    ScriptIsClean(text);
    Tidy.CleanIsJoin(Latin(text, "h"), NotSlugLetter, '-');
    Tidy.SameWords(Latin(text, "h"), NotSlugLetter, gap);
  }
}
