/** The grouping key of an event and its recomputation (packages/backend/scripts/backfill-event-grouping.ts). */
module GroupingKey {
  import opened Prelude
  import opened Decimal
  import opened Letters
  import Title

  const PREFIX := "v1::"

  /** `category` is the name of an enumeration member, `duration` and `age` are null or integers. */
  function BuildGroupingKey(category: string, title: string, duration: Option<int>, age: Option<int>): Option<string> {
    if title == "" || category == "" then None
    else
      var minutes := if duration.Some? && duration.value > 0 then Print(duration.value) else "na";
      Some(PREFIX + category + "::" + title + "::" + minutes + "::" + PrintInt(age.GetOr(0)))
  }

  // ----- Reading a key from both ends -----

  datatype Parts = Parts(category: string, title: string, duration: Option<int>, age: int)

  function FirstColons(s: string): (i: nat)
    ensures i <= |s|
  {
    if |s| < 2 then |s| else if s[0] == ':' && s[1] == ':' then 0 else 1 + FirstColons(s[1..])
  }

  function LastColons(s: string): (i: nat)
    ensures i <= |s|
  {
    if |s| < 2 then |s|
    else if s[|s| - 2] == ':' && s[|s| - 1] == ':' then |s| - 2
    else LastColons(s[..|s| - 1])
  }

  /** The text before a double colon and the text after it. */
  function Cut(s: string, i: nat): (string, string)
    requires i <= |s|
  {
    (s[..i], if i + 2 <= |s| then s[i + 2..] else "")
  }

  function ReadInt(s: string): int {
    if s != "" && s[0] == '-' && AllDigits(s[1..]) then 0 - Value(s[1..])
    else if AllDigits(s) then Value(s) else 0
  }

  /** The category from the left, the age and the duration from the right, the title in between. */
  function ParseGroupingKey(key: string): Parts
    requires |key| >= |PREFIX|
  {
    var s := key[|PREFIX|..];
    var (category, rest) := Cut(s, FirstColons(s));
    var (rest', age) := Cut(rest, LastColons(rest));
    var (title, minutes) := Cut(rest', LastColons(rest'));
    Parts(category, title, if AllDigits(minutes) then Some(ReadInt(minutes)) else None, ReadInt(age))
  }

  lemma {:induction false} FirstColonsAfter(a: string, b: string)
    requires ':' !in a
    ensures FirstColons(a + "::" + b) == |a|
  {
    var s := a + "::" + b;
    if a != "" {
      assert s[1..] == a[1..] + "::" + b;
      FirstColonsAfter(a[1..], b);
      assert s[0] == a[0];
    }
  }

  lemma {:induction false} LastColonsBefore(a: string, b: string)
    requires ':' !in b
    ensures LastColons(a + "::" + b) == |a|
  {
    var s := a + "::" + b;
    if b != "" {
      assert s[..|s| - 1] == a + "::" + b[..|b| - 1];
      LastColonsBefore(a, b[..|b| - 1]);
      assert s[|s| - 1] == b[|b| - 1];
    }
  }

  lemma CutAtColons(a: string, b: string)
    ensures ':' !in a ==> Cut(a + "::" + b, FirstColons(a + "::" + b)) == (a, b)
    ensures ':' !in b ==> Cut(a + "::" + b, LastColons(a + "::" + b)) == (a, b)
  {
    var s := a + "::" + b;
    assert s[..|a|] == a && s[|a| + 2..] == b;
    if ':' !in a {
      FirstColonsAfter(a, b);
    }
    if ':' !in b {
      LastColonsBefore(a, b);
    }
  }

  lemma ReadPrintedInt(n: int)
    ensures ReadInt(PrintInt(n)) == n && ':' !in PrintInt(n)
    ensures n >= 0 ==> AllDigits(PrintInt(n))
  {
    var digits := Print(if n < 0 then -n else n);
    ValueOfPrint(if n < 0 then -n else n);
    if n < 0 {
      assert PrintInt(n)[1..] == digits;
    } else {
      assert PrintInt(n) == digits && digits[0] != '-';
    }
  }

  /** A key gives back its category, its title, a positive duration and the age. */
  lemma ParseOfBuild(category: string, title: string, duration: Option<int>, age: Option<int>)
    requires ':' !in category && category != "" && title != ""
    ensures ParseGroupingKey(BuildGroupingKey(category, title, duration, age).value)
         == Parts(category, title,
                  if duration.Some? && duration.value > 0 then duration else None,
                  age.GetOr(0))
  {
    hide FirstColons, LastColons, Cut, Print, PrintInt, ReadInt, Value, AllDigits;
    var key := BuildGroupingKey(category, title, duration, age).value;
    var minutes := if duration.Some? && duration.value > 0 then Print(duration.value) else "na";
    var years := PrintInt(age.GetOr(0));
    var body := title + "::" + minutes;
    assert key[|PREFIX|..] == category + "::" + (body + "::" + years);
    ReadPrintedInt(age.GetOr(0));
    MinutesRead(duration);
    CutAtColons(category, body + "::" + years);
    CutAtColons(body, years);
    CutAtColons(title, minutes);
  }

  lemma MinutesRead(duration: Option<int>)
    ensures var minutes := if duration.Some? && duration.value > 0 then Print(duration.value) else "na";
            && ':' !in minutes
            && (if AllDigits(minutes) then Some(ReadInt(minutes)) else None)
               == if duration.Some? && duration.value > 0 then duration else None
  {
    if duration.Some? && duration.value > 0 {
      ReadPrintedInt(duration.value);
      assert PrintInt(duration.value) == Print(duration.value);
    } else {
      assert !IsDigit("na"[0]);
    }
  }

  /**
    Two events get the same key exactly when they agree on category and title, on a positive
    duration or on having none, and on the age with no age counting as 0.
   */
  lemma BuildIsInjective(c1: string, t1: string, d1: Option<int>, a1: Option<int>,
                         c2: string, t2: string, d2: Option<int>, a2: Option<int>)
    requires ':' !in c1 && c1 != "" && t1 != ""
    requires ':' !in c2 && c2 != "" && t2 != ""
    ensures BuildGroupingKey(c1, t1, d1, a1) == BuildGroupingKey(c2, t2, d2, a2)
       <==> && c1 == c2 && t1 == t2 && a1.GetOr(0) == a2.GetOr(0)
            && (if d1.GetOr(0) > 0 then d1 else None) == (if d2.GetOr(0) > 0 then d2 else None)
  {
    hide ParseGroupingKey, Print, PrintInt;
    ParseOfBuild(c1, t1, d1, a1);
    ParseOfBuild(c2, t2, d2, a2);
  }

  // ----- Recomputing the key of a row -----

  datatype Row = Row(
    title: string, category: string, duration: Option<int>, minAge: Option<int>,
    normalizedTitle: Option<string>, groupingKey: Option<string>)

  function StoredTitle(row: Row): string {
    var computed := if row.title != "" then ToLowerCase(Title.NormalizeEventTitle(row.title)) else "";
    if computed != "" then computed else ToLowerCase(row.normalizedTitle.GetOr(""))
  }

  function StoredKey(row: Row): Option<string> {
    BuildGroupingKey(row.category, StoredTitle(row), row.duration, Some(row.minAge.GetOr(0)))
  }

  predicate NeedsUpdate(row: Row) {
    || row.normalizedTitle.GetOr("") != StoredTitle(row)
    || (StoredKey(row).Some? && row.groupingKey != StoredKey(row))
    || (StoredKey(row).None? && row.groupingKey.Some?)
  }

  function Recomputed(row: Row): Row {
    if !NeedsUpdate(row) then row
    else row.(normalizedTitle := if StoredTitle(row) == "" then None else Some(StoredTitle(row)),
              groupingKey := StoredKey(row))
  }

  lemma LowerTwice(s: string)
    ensures ToLowerCase(ToLowerCase(s)) == ToLowerCase(s)
  {
  }

  /** A recomputed row needs no update, and its key is the key it had been found to need. */
  lemma RecomputedIsSettled(row: Row)
    ensures !NeedsUpdate(Recomputed(row))
    ensures Recomputed(row).groupingKey == StoredKey(row)
    ensures StoredKey(Recomputed(row)) == StoredKey(row)
  {
    LowerTwice(row.normalizedTitle.GetOr(""));
  }

  /** Storing the normalised title in place of the title never changes the grouping key. */
  lemma RenormalizingKeepsKey(row: Row)
    ensures StoredKey(row.(title := Title.NormalizeEventTitle(row.title))) == StoredKey(row)
  {
    var t := Title.NormalizeEventTitle(row.title);
    Title.NormalizeKeepsLetters(row.title);
    Title.NormalizeKeepsLetters(t);
    assert ToLowerCase(Title.NormalizeEventTitle(t)) == ToLowerCase(t);
  }

  // ----- What the key of a row is made of -----

  lemma NothingNormalized()
    ensures Title.NormalizeEventTitle("") == ""
  {
  }

  /** The text of a row's key: its normalised title in lower case, or else its stored one. */
  function KeyText(row: Row): string {
    var t := ToLowerCase(Title.NormalizeEventTitle(row.title));
    if t != "" then t else ToLowerCase(row.normalizedTitle.GetOr(""))
  }

  /** The duration and the age as a key tells them apart. */
  function KeyNumbers(row: Row): (Option<int>, int) {
    (if row.duration.GetOr(0) > 0 then row.duration else None, row.minAge.GetOr(0))
  }

  /**
    Recomputing a row stores its text and a key, and nothing else.  Read from both ends the key gives
    the category, the text, the positive duration and the age of the row; without a text there is no
    key.
   */
  lemma RecomputedKeyParses(row: Row)
    requires row.category != "" && ':' !in row.category
    ensures var after := Recomputed(row);
            && after.title == row.title && after.category == row.category && after.duration == row.duration
            && after.minAge == row.minAge && after.normalizedTitle.GetOr("") == KeyText(row)
            && (after.groupingKey.None? <==> KeyText(row) == "")
            && (after.groupingKey.Some? ==>
                  && |PREFIX| <= |after.groupingKey.value| && PREFIX <= after.groupingKey.value && PREFIX == "v1::"
                  && ParseGroupingKey(after.groupingKey.value)
                  == Parts(row.category, KeyText(row), KeyNumbers(row).0, KeyNumbers(row).1))
  {
    hide ParseGroupingKey, Title.NormalizeEventTitle, Print, PrintInt;
    RecomputedIsSettled(row);
    NothingNormalized();
    if KeyText(row) != "" {
      ParseOfBuild(row.category, KeyText(row), row.duration, Some(row.minAge.GetOr(0)));
    }
  }

  lemma NoKeyWithoutCategory(row: Row)
    requires row.category == ""
    ensures Recomputed(row).groupingKey.None?
  {
  }

  /** Two recomputed rows share a key exactly when category, text, positive duration and age agree. */
  lemma RecomputedKeysAgreeIff(a: Row, b: Row)
    requires a.category != "" && ':' !in a.category && b.category != "" && ':' !in b.category
    requires KeyText(a) != "" && KeyText(b) != ""
    ensures Recomputed(a).groupingKey.Some? && Recomputed(b).groupingKey.Some?
    ensures Recomputed(a).groupingKey == Recomputed(b).groupingKey
       <==> a.category == b.category && KeyText(a) == KeyText(b) && KeyNumbers(a) == KeyNumbers(b)
  {
    hide ParseGroupingKey, Title.NormalizeEventTitle, Print, PrintInt;
    RecomputedIsSettled(a);
    RecomputedIsSettled(b);
    NothingNormalized();
    BuildIsInjective(a.category, KeyText(a), a.duration, Some(a.minAge.GetOr(0)),
                     b.category, KeyText(b), b.duration, Some(b.minAge.GetOr(0)));
  }
}
