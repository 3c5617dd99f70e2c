/**
  The letters the catalogue works with: Latin a-z and Russian а-я with ё, whose case maps are one
  to one.  Every other character has no case here.
 */
module Letters {

  predicate IsLower(c: char) {
    'a' <= c <= 'z' || 'а' <= c <= 'я' || c == 'ё'
  }

  predicate IsUpper(c: char) {
    'A' <= c <= 'Z' || 'А' <= c <= 'Я' || c == 'Ё'
  }

  predicate IsLetter(c: char) {
    IsLower(c) || IsUpper(c)
  }

  function Lower(c: char): (r: char)
    ensures IsUpper(c) ==> IsLower(r)
    ensures !IsUpper(c) ==> r == c
  {
    if !IsUpper(c) then c
    else if c == 'Ё' then 'ё'
    else (c as int + 32) as char
  }

  function Upper(c: char): (r: char)
    ensures IsLower(c) ==> IsUpper(r) && Lower(r) == c
    ensures !IsLower(c) ==> r == c
  {
    if !IsLower(c) then c
    else if c == 'ё' then 'Ё'
    else (c as int - 32) as char
  }

  function ToLowerCase(s: string): (r: string)
    ensures |r| == |s| && forall i | 0 <= i < |s| :: r[i] == Lower(s[i])
  {
    seq(|s|, i requires 0 <= i < |s| => Lower(s[i]))
  }

  /** The characters of `\s` and `trim` in ECMA-262. */
  predicate IsSpace(c: char) {
    || '\U{0009}' <= c <= '\U{000D}'
    || c == ' ' || c == '\U{00A0}' || c == '\U{1680}'
    || '\U{2000}' <= c <= '\U{200A}'
    || c == '\U{2028}' || c == '\U{2029}' || c == '\U{202F}' || c == '\U{205F}' || c == '\U{3000}' || c == '\U{FEFF}'
  }

  // ECMA-262, 6th edition, sections 11.2 and 11.3, with the space separators (Zs) of Unicode
  const WHITE_SPACE: set<char> := {
    '\U{0009}', '\U{000B}', '\U{000C}', '\U{0020}', '\U{00A0}', '\U{FEFF}', '\U{1680}', '\U{2000}', '\U{2001}', '\U{2002}',
    '\U{2003}', '\U{2004}', '\U{2005}', '\U{2006}', '\U{2007}', '\U{2008}', '\U{2009}', '\U{200A}', '\U{202F}', '\U{205F}',
    '\U{3000}'}
  const LINE_ENDS: set<char> := {'\U{000A}', '\U{000D}', '\U{2028}', '\U{2029}'}

  lemma SpacesAre(c: char)
    ensures IsSpace(c) <==> c in WHITE_SPACE || c in LINE_ENDS
  {
  }

  // ----- The alphabets -----

  const LATIN_CAPITALS: set<char> := {
    'A', 'B', 'C', 'D', 'E', 'F', 'G', 'H', 'I', 'J', 'K', 'L', 'M', 'N', 'O', 'P', 'Q', 'R', 'S',
    'T', 'U', 'V', 'W', 'X', 'Y', 'Z'}

  const LATIN_SMALL: set<char> := {
    'a', 'b', 'c', 'd', 'e', 'f', 'g', 'h', 'i', 'j', 'k', 'l', 'm', 'n', 'o', 'p', 'q', 'r', 's',
    't', 'u', 'v', 'w', 'x', 'y', 'z'}

  const RUSSIAN_CAPITALS: set<char> := {
    'А', 'Б', 'В', 'Г', 'Д', 'Е', 'Ё', 'Ж', 'З', 'И', 'Й', 'К', 'Л', 'М', 'Н', 'О', 'П', 'Р', 'С',
    'Т', 'У', 'Ф', 'Х', 'Ц', 'Ч', 'Ш', 'Щ', 'Ъ', 'Ы', 'Ь', 'Э', 'Ю', 'Я'}

  const RUSSIAN_SMALL: set<char> := {
    'а', 'б', 'в', 'г', 'д', 'е', 'ё', 'ж', 'з', 'и', 'й', 'к', 'л', 'м', 'н', 'о', 'п', 'р', 'с',
    'т', 'у', 'ф', 'х', 'ц', 'ч', 'ш', 'щ', 'ъ', 'ы', 'ь', 'э', 'ю', 'я'}

  lemma LatinLetters(c: char)
    ensures 'A' <= c <= 'Z' <==> c in LATIN_CAPITALS
    ensures 'a' <= c <= 'z' <==> c in LATIN_SMALL
  {
  }

  lemma RussianLetters(c: char)
    ensures 'А' <= c <= 'Я' || c == 'Ё' <==> c in RUSSIAN_CAPITALS
    ensures 'а' <= c <= 'я' || c == 'ё' <==> c in RUSSIAN_SMALL
  {
  }

  /** The letters are those of the two alphabets. */
  lemma LettersAre(c: char)
    ensures IsUpper(c) <==> c in LATIN_CAPITALS || c in RUSSIAN_CAPITALS
    ensures IsLower(c) <==> c in LATIN_SMALL || c in RUSSIAN_SMALL
    ensures IsLetter(c) <==> IsUpper(c) || IsLower(c)
  {
    LatinLetters(c);
    RussianLetters(c);
  }

  /** Case goes from one row of an alphabet to the other. */
  lemma LatinCase()
    ensures Lower('A') == 'a' && Upper('a') == 'A' && Lower('B') == 'b' && Upper('b') == 'B'
    ensures Lower('C') == 'c' && Upper('c') == 'C' && Lower('D') == 'd' && Upper('d') == 'D'
    ensures Lower('E') == 'e' && Upper('e') == 'E' && Lower('F') == 'f' && Upper('f') == 'F'
    ensures Lower('G') == 'g' && Upper('g') == 'G' && Lower('H') == 'h' && Upper('h') == 'H'
    ensures Lower('I') == 'i' && Upper('i') == 'I' && Lower('J') == 'j' && Upper('j') == 'J'
    ensures Lower('K') == 'k' && Upper('k') == 'K' && Lower('L') == 'l' && Upper('l') == 'L'
    ensures Lower('M') == 'm' && Upper('m') == 'M' && Lower('N') == 'n' && Upper('n') == 'N'
    ensures Lower('O') == 'o' && Upper('o') == 'O' && Lower('P') == 'p' && Upper('p') == 'P'
    ensures Lower('Q') == 'q' && Upper('q') == 'Q' && Lower('R') == 'r' && Upper('r') == 'R'
    ensures Lower('S') == 's' && Upper('s') == 'S' && Lower('T') == 't' && Upper('t') == 'T'
    ensures Lower('U') == 'u' && Upper('u') == 'U' && Lower('V') == 'v' && Upper('v') == 'V'
    ensures Lower('W') == 'w' && Upper('w') == 'W' && Lower('X') == 'x' && Upper('x') == 'X'
    ensures Lower('Y') == 'y' && Upper('y') == 'Y' && Lower('Z') == 'z' && Upper('z') == 'Z'
  {
  }

  lemma RussianCase()
    ensures Lower('А') == 'а' && Upper('а') == 'А' && Lower('Б') == 'б' && Upper('б') == 'Б'
    ensures Lower('В') == 'в' && Upper('в') == 'В' && Lower('Г') == 'г' && Upper('г') == 'Г'
    ensures Lower('Д') == 'д' && Upper('д') == 'Д' && Lower('Е') == 'е' && Upper('е') == 'Е'
    ensures Lower('Ё') == 'ё' && Upper('ё') == 'Ё' && Lower('Ж') == 'ж' && Upper('ж') == 'Ж'
    ensures Lower('З') == 'з' && Upper('з') == 'З' && Lower('И') == 'и' && Upper('и') == 'И'
    ensures Lower('Й') == 'й' && Upper('й') == 'Й' && Lower('К') == 'к' && Upper('к') == 'К'
    ensures Lower('Л') == 'л' && Upper('л') == 'Л' && Lower('М') == 'м' && Upper('м') == 'М'
    ensures Lower('Н') == 'н' && Upper('н') == 'Н' && Lower('О') == 'о' && Upper('о') == 'О'
    ensures Lower('П') == 'п' && Upper('п') == 'П' && Lower('Р') == 'р' && Upper('р') == 'Р'
    ensures Lower('С') == 'с' && Upper('с') == 'С' && Lower('Т') == 'т' && Upper('т') == 'Т'
    ensures Lower('У') == 'у' && Upper('у') == 'У' && Lower('Ф') == 'ф' && Upper('ф') == 'Ф'
    ensures Lower('Х') == 'х' && Upper('х') == 'Х' && Lower('Ц') == 'ц' && Upper('ц') == 'Ц'
    ensures Lower('Ч') == 'ч' && Upper('ч') == 'Ч' && Lower('Ш') == 'ш' && Upper('ш') == 'Ш'
    ensures Lower('Щ') == 'щ' && Upper('щ') == 'Щ' && Lower('Ъ') == 'ъ' && Upper('ъ') == 'Ъ'
    ensures Lower('Ы') == 'ы' && Upper('ы') == 'Ы' && Lower('Ь') == 'ь' && Upper('ь') == 'Ь'
    ensures Lower('Э') == 'э' && Upper('э') == 'Э' && Lower('Ю') == 'ю' && Upper('ю') == 'Ю'
    ensures Lower('Я') == 'я' && Upper('я') == 'Я'
  {
  }
}
