/**
  The pure parts of `EmailParser` (src/email_to_pdf/parsers/email_parser.py):
  the date taken from a ride receipt's subject line, and the cleaning of
  the GST and total amounts read from the receipt's table cells.
 */
module EmailParser {
  import opened Wrappers
  import opened Decimal
  import opened Text

  // ---------------------------------------------------------------------------
  // The message date

  /** `datetime.MINYEAR` and `datetime.MAXYEAR`. */
  const MinYear := 1
  const MaxYear := 9999

  predicate IsLeap(year: int) {
    year % 4 == 0 && (year % 100 != 0 || year % 400 == 0)
  }

  function DaysInMonth(year: int, month: int): (n: int)
    requires 1 <= month <= 12
    ensures 28 <= n <= 31
  {
    if month == 2 then (if IsLeap(year) then 29 else 28)
    else if month == 4 || month == 6 || month == 9 || month == 11 then 30
    else 31
  }

  /** The calendar fields of the `datetime` parsed from the Date header. */
  datatype Date = Date(year: int, month: int, day: int) {
    /** What a Python `datetime` guarantees of these fields. */
    predicate Valid() {
      MinYear <= year <= MaxYear && 1 <= month <= 12 && 1 <= day <= DaysInMonth(year, month)
    }
  }

  /** The dictionary `parse_email_content` returns. */
  datatype ParsedEmail = ParsedEmail(
    subject: string,
    sender: string,
    date: Date,
    body: string,
    gst: Option<string>,
    total: Option<string>)

  /** `date.strftime('%Y%m%d')`: four-digit year, two-digit month and day. */
  function FormatDate(date: Date): (r: string)
    requires date.Valid()
    ensures |r| == 8 && AllDigits(r)
  {
    FourDigits(date.year);
    TwoDigits(date.month);
    TwoDigits(date.day);
    var y, m, d := ZeroPad(Show(date.year), 4), ZeroPad(Show(date.month), 2), ZeroPad(Show(date.day), 2);
    AllDigitsConcat(y, m);
    AllDigitsConcat(y + m, d);
    y + m + d
  }

  /** `strftime('%Y%m%d')` reads back as the year, the month and the day. */
  lemma FormatDateDecodes(date: Date)
    requires date.Valid()
    ensures Value(FormatDate(date)[..4]) == date.year
    ensures Value(FormatDate(date)[4..6]) == date.month
    ensures Value(FormatDate(date)[6..]) == date.day
  {
    FourDigits(date.year);
    TwoDigits(date.month);
    TwoDigits(date.day);
    var y, m, d := ZeroPad(Show(date.year), 4), ZeroPad(Show(date.month), 2), ZeroPad(Show(date.day), 2);
    assert FormatDate(date) == y + m + d;
    SplitThree(y, m, d);
  }

  // ---------------------------------------------------------------------------
  // `re.search(r'on ([A-Za-z]+) (\d+)', subject)`

  predicate IsAsciiLetter(c: char) {
    'A' <= c <= 'Z' || 'a' <= c <= 'z'
  }

  predicate AllLetters(s: string) {
    forall i :: 0 <= i < |s| ==> IsAsciiLetter(s[i])
  }

  /**
    The pattern matches at `i` with groups `word` and `digits`: "on ", one
    or more letters, one space, then the digits, which `\d+` takes as far
    as they go.
   */
  predicate PatternAt(s: string, i: nat, word: string, digits: string) {
    var j := i + 3 + |word|;
    var e := j + 1 + |digits|;
    && e <= |s|
    && s[i..i + 3] == "on "
    && |word| > 0 && AllLetters(word) && s[i + 3..j] == word
    && s[j] == ' '
    && |digits| > 0 && AllDigits(digits) && s[j + 1..e] == digits
    && (e == |s| || !IsDigit(s[e]))
  }

  /** The longest run of letters starting at `i`. */
  function LetterRun(s: string, i: nat): (n: nat)
    requires i <= |s|
    ensures i + n <= |s|
    ensures forall k :: i <= k < i + n ==> IsAsciiLetter(s[k])
    ensures i + n == |s| || !IsAsciiLetter(s[i + n])
    decreases |s| - i
  {
    if i < |s| && IsAsciiLetter(s[i]) then 1 + LetterRun(s, i + 1) else 0
  }

  /** The longest run of digits starting at `i`. */
  function DigitRun(s: string, i: nat): (n: nat)
    requires i <= |s|
    ensures i + n <= |s|
    ensures forall k :: i <= k < i + n ==> IsDigit(s[k])
    ensures i + n == |s| || !IsDigit(s[i + n])
    decreases |s| - i
  {
    if i < |s| && IsDigit(s[i]) then 1 + DigitRun(s, i + 1) else 0
  }

  /** A run of `n` letters that ends where the letters end is the longest run. */
  lemma {:induction false} LetterRunIs(s: string, i: nat, n: nat)
    requires i + n <= |s|
    requires forall k :: i <= k < i + n ==> IsAsciiLetter(s[k])
    requires i + n == |s| || !IsAsciiLetter(s[i + n])
    ensures LetterRun(s, i) == n
    decreases n
  {
    if n > 0 {
      LetterRunIs(s, i + 1, n - 1);
    }
  }

  /** A run of `n` digits that ends where the digits end is the longest run. */
  lemma {:induction false} DigitRunIs(s: string, i: nat, n: nat)
    requires i + n <= |s|
    requires forall k :: i <= k < i + n ==> IsDigit(s[k])
    requires i + n == |s| || !IsDigit(s[i + n])
    ensures DigitRun(s, i) == n
    decreases n
  {
    if n > 0 {
      DigitRunIs(s, i + 1, n - 1);
    }
  }

  /** A match: where it starts and its two groups. */
  datatype Match = Match(start: nat, word: string, digits: string)

  /** The regular expression tried at one position only. */
  function MatchAt(s: string, i: nat): (r: Option<Match>)
    requires i <= |s|
    ensures r.Some? ==> r.value.start == i && PatternAt(s, i, r.value.word, r.value.digits)
  {
    if i + 3 <= |s| && s[i..i + 3] == "on " then
      var n := LetterRun(s, i + 3);
      var j := i + 3 + n;
      if n > 0 && j < |s| && s[j] == ' ' then
        var m := DigitRun(s, j + 1);
        if m > 0 then
          var word, digits := s[i + 3..j], s[j + 1..j + 1 + m];
          assert s[j + 1..j + 1 + |digits|] == digits;
          Some(Match(i, word, digits))
        else None
      else None
    else None
  }

  /** At a given position there is at most one match, and `MatchAt` finds it. */
  lemma MatchAtComplete(s: string, i: nat, word: string, digits: string)
    requires PatternAt(s, i, word, digits)
    ensures MatchAt(s, i) == Some(Match(i, word, digits))
  {
    var j := i + 3 + |word|;
    assert forall k :: i + 3 <= k < j ==> s[k] == word[k - i - 3];
    LetterRunIs(s, i + 3, |word|);
    assert forall k :: j + 1 <= k < j + 1 + |digits| ==> s[k] == digits[k - j - 1];
    DigitRunIs(s, j + 1, |digits|);
  }

  /** Scanning from `i` onwards, the first position where the pattern matches. */
  function SearchFrom(s: string, i: nat): (r: Option<Match>)
    requires i <= |s|
    ensures r.Some? ==> i <= r.value.start <= |s| && MatchAt(s, r.value.start) == r
    ensures forall j :: i <= j <= |s| && (r.None? || j < r.value.start) ==> MatchAt(s, j).None?
    decreases |s| - i
  {
    if MatchAt(s, i).Some? then MatchAt(s, i)
    else if i == |s| then None
    else SearchFrom(s, i + 1)
  }

  /** `re.search`: the leftmost match, if any. */
  function Search(s: string): (r: Option<Match>)
    ensures r.Some? ==> PatternAt(s, r.value.start, r.value.word, r.value.digits)
    ensures r.None? ==> forall j :: 0 <= j <= |s| ==> MatchAt(s, j).None?
  {
    SearchFrom(s, 0)
  }

  /**
    `Search` returns a match of the pattern, and no match starts to its left;
    when it returns nothing, the pattern matches nowhere.
   */
  lemma SearchIsLeftmost(s: string)
    ensures Search(s).Some? ==> PatternAt(s, Search(s).value.start, Search(s).value.word, Search(s).value.digits)
    ensures forall j: nat, w, d :: PatternAt(s, j, w, d) ==> Search(s).Some? && Search(s).value.start <= j
  {
    forall j: nat, w, d | PatternAt(s, j, w, d)
      ensures Search(s).Some? && Search(s).value.start <= j
    {
      MatchAtComplete(s, j, w, d);
    }
  }

  // ---------------------------------------------------------------------------
  // `datetime.strptime(word, '%B').month`

  const MonthNames: seq<string> := [
    "January", "February", "March", "April", "May", "June",
    "July", "August", "September", "October", "November", "December"
  ]

  function LowerChar(c: char): char {
    if 'A' <= c <= 'Z' then (c as int + 32) as char else c
  }

  /** ASCII lower case. */
  function Lower(s: string): (r: string)
    ensures |r| == |s|
  {
    seq(|s|, i requires 0 <= i < |s| => LowerChar(s[i]))
  }

  /** The first month name from index `k` on that equals `word` ignoring case. */
  function MonthFrom(word: string, k: nat): (r: Option<nat>)
    requires k <= 12
    ensures r.Some? ==> k < r.value <= 12 && Lower(word) == Lower(MonthNames[r.value - 1])
    ensures r.None? ==> forall j :: k <= j < 12 ==> Lower(word) != Lower(MonthNames[j])
    decreases 12 - k
  {
    if k == 12 then None
    else if Lower(word) == Lower(MonthNames[k]) then Some(k + 1)
    else MonthFrom(word, k + 1)
  }

  /**
    The month number `strptime(word, '%B')` reads: a full English month
    name in any letter case, or `None` where strptime raises `ValueError`.
   */
  function MonthNumber(word: string): (r: Option<nat>)
    ensures r.Some? ==> 1 <= r.value <= 12 && Lower(word) == Lower(MonthNames[r.value - 1])
    ensures r.None? ==> forall j :: 0 <= j < 12 ==> Lower(word) != Lower(MonthNames[j])
  {
    MonthFrom(word, 0)
  }

  // ---------------------------------------------------------------------------
  // `extract_date_from_subject`

  /**
    CPython's default limit on the digits `int()` converts from a string
    (`sys.get_int_max_str_digits()`); longer strings raise `ValueError`.
   */
  const MaxIntStrDigits := 4300

  /**
    `extract_date_from_subject(subject, email_date)`: the date for the file
    name. A leftmost `on <Month> <day>` in the subject gives the message's
    year, the month as two digits and the day's value padded to two digits;
    anything else falls back to `email_date.strftime('%Y%m%d')`. Every
    `ValueError` of the subject path lands in the fallback.
   */
  function ExtractDateFromSubject(subject: string, date: Date): (r: string)
    requires date.Valid()
    ensures AllDigits(r) && |r| >= 5
  {
    match Search(subject)
    case None => FormatDate(date)
    case Some(hit) =>
      match MonthNumber(hit.word)
      case None => FormatDate(date)
      case Some(month) =>
        if |hit.digits| > MaxIntStrDigits then FormatDate(date)
        else SubjectDate(date.year, month, Value(hit.digits))
  }

  /** `f"{year}{month:02d}{day:02d}"` */
  function SubjectDate(year: nat, month: nat, day: nat): (r: string)
    ensures AllDigits(r) && |r| >= 5
  {
    ZeroPadValue(Show(month), 2);
    ZeroPadValue(Show(day), 2);
    var y, m, d := Show(year), ZeroPad(Show(month), 2), ZeroPad(Show(day), 2);
    AllDigitsConcat(y, m);
    AllDigitsConcat(y + m, d);
    y + m + d
  }

  /**
    The subject-path date reads back as the year, then the month in exactly
    two digits, then the day's value in at least two digits. The day is not
    checked against the calendar and its leading zeros are not kept.
   */
  lemma SubjectDateDecodes(year: nat, month: nat, day: nat)
    requires 1 <= month <= 12
    ensures var r, y := SubjectDate(year, month, day), Show(year);
      && |r| >= |y| + 4 && r[..|y|] == y && Value(y) == year
      && Value(r[|y|..|y| + 2]) == month
      && Value(r[|y| + 2..]) == day
      && |r| == |y| + 2 + (if day < 10 then 2 else |Show(day)|)
  {
    assert Pow10(2) == 100 by { assert Pow10(1) == 10; }
    FixedWidth(month, 2);
    ValueOfShow(year);
    ValueOfShow(day);
    ZeroPadValue(Show(day), 2);
    var y, m, d := Show(year), ZeroPad(Show(month), 2), ZeroPad(Show(day), 2);
    var r := y + m + d;
    assert r[..|y|] == y && r[|y|..|y| + 2] == m && r[|y| + 2..] == d;
  }

  /**
    Only the leftmost match decides: when it names a month (and its day has
    few enough digits for `int()`), the date comes from it; when it does not,
    the message date is used even if a later match would name a month.
   */
  lemma LeftmostMatchDecides(subject: string, date: Date, i: nat, word: string, digits: string)
    requires date.Valid()
    requires PatternAt(subject, i, word, digits)
    requires forall j: nat, w, d :: j < i ==> !PatternAt(subject, j, w, d)
    ensures MonthNumber(word).None? ==> ExtractDateFromSubject(subject, date) == FormatDate(date)
    ensures |digits| > MaxIntStrDigits ==> ExtractDateFromSubject(subject, date) == FormatDate(date)
    ensures MonthNumber(word).Some? && |digits| <= MaxIntStrDigits ==>
      ExtractDateFromSubject(subject, date) == SubjectDate(date.year, MonthNumber(word).value, Value(digits))
  {
    LeftmostSearch(subject, i, word, digits);
  }

  /** A match with none to its left is exactly what `re.search` returns. */
  lemma LeftmostSearch(subject: string, i: nat, word: string, digits: string)
    requires PatternAt(subject, i, word, digits)
    requires forall j: nat, w, d :: j < i ==> !PatternAt(subject, j, w, d)
    ensures Search(subject) == Some(Match(i, word, digits))
  {
    SearchIsLeftmost(subject);
    MatchAtComplete(subject, i, word, digits);
    var hit := Search(subject).value;
    assert PatternAt(subject, hit.start, hit.word, hit.digits);
    assert hit.start == i;
  }

  /** With no match anywhere in the subject, the date is the message date. */
  lemma NoMatchFallsBack(subject: string, date: Date)
    requires date.Valid()
    requires forall j: nat, w, d :: !PatternAt(subject, j, w, d)
    ensures ExtractDateFromSubject(subject, date) == FormatDate(date)
  {
    SearchIsLeftmost(subject);
  }

  /**
    The year never comes from the subject: for four-digit years the date
    begins with the message's year on every path.
   */
  lemma YearFromMessage(subject: string, date: Date)
    requires date.Valid() && date.year >= 1000
    ensures |ExtractDateFromSubject(subject, date)| >= 4
    ensures ExtractDateFromSubject(subject, date)[..4] == Show(date.year)
    ensures Value(Show(date.year)) == date.year
  {
    YearHasFourDigits(date.year);
    ValueOfShow(date.year);
    match Search(subject)
    case None =>
      FormatDatePrefix(date);
    case Some(hit) =>
      match MonthNumber(hit.word)
      case None =>
        FormatDatePrefix(date);
      case Some(month) =>
        if |hit.digits| > MaxIntStrDigits {
          FormatDatePrefix(date);
        } else {
          SubjectDateDecodes(date.year, month, Value(hit.digits));
        }
  }

  lemma YearHasFourDigits(year: nat)
    requires 1000 <= year <= 9999
    ensures |Show(year)| == 4 && ZeroPad(Show(year), 4) == Show(year)
  {
    assert Pow10(3) == 1000 && Pow10(4) == 10000 by { assert Pow10(1) == 10; }
    ShowLengthAbove(year, 3);
    ShowLength(year, 4);
  }

  lemma FormatDatePrefix(date: Date)
    requires date.Valid()
    ensures FormatDate(date)[..4] == ZeroPad(Show(date.year), 4)
  {
    FourDigits(date.year);
    TwoDigits(date.month);
    TwoDigits(date.day);
    var y, m, d := ZeroPad(Show(date.year), 4), ZeroPad(Show(date.month), 2), ZeroPad(Show(date.day), 2);
    assert FormatDate(date) == y + m + d;
    SplitThree(y, m, d);
  }

  // ---------------------------------------------------------------------------
  // `text.strip().replace('$', '').strip()` (lines 77 and 82)

  /** The characters of an amount that cleaning must keep: neither whitespace nor '$'. */
  function Significant(s: string): (r: string)
    ensures |r| <= |s|
  {
    if s == [] then []
    else (if IsSpace(s[0]) || s[0] == '$' then [] else [s[0]]) + Significant(s[1..])
  }

  /** The cleaned amount text of a GST or total cell. */
  function CleanAmount(text: string): (r: string)
    ensures forall i :: 0 <= i < |r| ==> r[i] != '$'
    ensures r != [] ==> !IsSpace(r[0]) && !IsSpace(r[|r| - 1])
  {
    var removed := RemoveAll(Strip(text), '$');
    Strip(removed)
  }

  lemma {:induction false} SignificantConcat(a: string, b: string)
    ensures Significant(a + b) == Significant(a) + Significant(b)
    decreases |a|
  {
    if a == [] {
      assert a + b == b;
    } else {
      assert (a + b)[1..] == a[1..] + b;
      SignificantConcat(a[1..], b);
    }
  }

  lemma {:induction false} SignificantOfBlank(s: string)
    requires forall i :: 0 <= i < |s| ==> IsSpace(s[i])
    ensures Significant(s) == []
    decreases |s|
  {
    if s != [] {
      SignificantOfBlank(s[1..]);
    }
  }

  lemma SignificantOfStripLeft(s: string)
    ensures Significant(StripLeft(s)) == Significant(s)
  {
    var l := StripLeft(s);
    var cut := |s| - |l|;
    assert s == s[..cut] + l;
    SignificantConcat(s[..cut], l);
    SignificantOfBlank(s[..cut]);
  }

  lemma SignificantOfStripRight(s: string)
    ensures Significant(StripRight(s)) == Significant(s)
  {
    var r := StripRight(s);
    assert s == r + s[|r|..];
    SignificantConcat(r, s[|r|..]);
    SignificantOfBlank(s[|r|..]);
  }

  /** Stripping removes only whitespace. */
  lemma SignificantOfStrip(s: string)
    ensures Significant(Strip(s)) == Significant(s)
  {
    SignificantOfStripLeft(s);
    SignificantOfStripRight(StripLeft(s));
  }

  /** Dropping '$' removes nothing significant. */
  lemma {:induction false} SignificantOfRemoveDollar(s: string)
    ensures Significant(RemoveAll(s, '$')) == Significant(s)
    decreases |s|
  {
    if s != [] {
      var head := if s[0] == '$' then [] else [s[0]];
      SignificantOfRemoveDollar(s[1..]);
      SignificantConcat(head, RemoveAll(s[1..], '$'));
    }
  }

  /** Cleaning keeps every character other than whitespace and '$', in order. */
  lemma CleanAmountKeepsContent(text: string)
    ensures Significant(CleanAmount(text)) == Significant(text)
  {
    var stripped := Strip(text);
    var removed := RemoveAll(stripped, '$');
    SignificantOfStrip(text);
    SignificantOfRemoveDollar(stripped);
    SignificantOfStrip(removed);
  }

  /** Cleaning twice is cleaning once. */
  lemma CleanAmountIdempotent(text: string)
    ensures CleanAmount(CleanAmount(text)) == CleanAmount(text)
  {
    var r := CleanAmount(text);
    StripUnchanged(r);
    RemoveAbsent(r, '$');
  }

  /** A cell comes out empty exactly when it holds nothing but whitespace and '$'. */
  lemma CleanAmountEmpty(text: string)
    ensures CleanAmount(text) == [] <==> Significant(text) == []
  {
    CleanAmountKeepsContent(text);
    var r := CleanAmount(text);
    if r != [] {
      assert Significant(r) == [r[0]] + Significant(r[1..]);
    }
  }

  /** `replace('$', '')` on whitespace changes nothing. */
  lemma RemoveDollarOfSpace(s: string)
    requires AllSpace(s)
    ensures RemoveAll(s, '$') == s
  {
    RemoveAbsent(s, '$');
  }

  /** Removing '$' from a run of whitespace and '$' leaves only whitespace. */
  lemma RemoveDollarOfPadding(s: string)
    requires forall i :: 0 <= i < |s| ==> IsSpace(s[i]) || s[i] == '$'
    ensures AllSpace(RemoveAll(s, '$'))
  {
    var r := RemoveAll(s, '$');
    forall i | 0 <= i < |r| ensures IsSpace(r[i]) {
      assert r[i] in s;
    }
  }

  /** The first `strip()` changes nothing: cleaning is `replace('$', '')` then `strip()`. */
  lemma CleanAmountIsStripOfRemove(text: string)
    ensures CleanAmount(text) == Strip(RemoveAll(text, '$'))
  {
    var lead, trail := StripDecompose(text);
    var mid := Strip(text);
    RemoveAllConcat(lead + mid, trail, '$');
    RemoveAllConcat(lead, mid, '$');
    RemoveDollarOfSpace(lead);
    RemoveDollarOfSpace(trail);
    StripIgnoresOuterSpace(lead, RemoveAll(mid, '$'), trail);
  }

  /**
    The exact cleaned text: a cell made of padding (whitespace and '$'),
    then an amount `m` with no '$' and no whitespace at either end, then
    padding again, cleans to `m` itself; whitespace inside `m` is kept.
   */
  lemma CleanAmountExact(a: string, m: string, b: string)
    requires forall i :: 0 <= i < |a| ==> IsSpace(a[i]) || a[i] == '$'
    requires forall i :: 0 <= i < |b| ==> IsSpace(b[i]) || b[i] == '$'
    requires forall i :: 0 <= i < |m| ==> m[i] != '$'
    requires m != [] ==> !IsSpace(m[0]) && !IsSpace(m[|m| - 1])
    ensures CleanAmount(a + m + b) == m
  {
    CleanAmountIsStripOfRemove(a + m + b);
    RemoveAllConcat(a + m, b, '$');
    RemoveAllConcat(a, m, '$');
    RemoveAbsent(m, '$');
    RemoveDollarOfPadding(a);
    RemoveDollarOfPadding(b);
    StripIgnoresOuterSpace(RemoveAll(a, '$'), m, RemoveAll(b, '$'));
    StripUnchanged(m);
  }
}
