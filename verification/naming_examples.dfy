/**
  Worked examples of the naming pipeline on concrete receipts: subject
  dates, the cleaning of an amount cell, and a whole base name.
 */
module NamingExamples {
  import opened Wrappers
  import opened Decimal
  import opened Text
  import opened EmailParser
  import opened PdfHandler

  /** A subject that begins with the pattern matches at position 0. */
  lemma PatternAtStart(s: string, word: string, digits: string, rest: string)
    requires s == "on " + word + " " + digits + rest
    requires |word| > 0 && AllLetters(word) && |digits| > 0 && AllDigits(digits)
    requires rest == [] || !IsDigit(rest[0])
    ensures PatternAt(s, 0, word, digits)
  {
    var j := 3 + |word|;
    assert s[..3] == "on ";
    assert s[3..j] == word;
    assert s[j] == ' ';
    assert s[j + 1..j + 1 + |digits|] == digits;
    if rest != [] {
      assert s[j + 1 + |digits|] == rest[0];
    }
  }

  lemma ShowYear2024()
    ensures Show(2024) == "2024" && ZeroPad(Show(2024), 4) == "2024"
  {
    assert Show(2) == "2";
    assert Show(20) == "20";
    assert Show(202) == "202";
  }

  lemma MarchIsThird()
    ensures MonthNumber("March") == Some(3) && MonthNumber("march") == Some(3)
  {
  }

  lemma MondayIsNoMonth()
    ensures MonthNumber("Monday").None?
  {
    forall j | 0 <= j < 12 ensures Lower("Monday") != Lower(MonthNames[j]) {
      assert Lower("Monday")[0] == 'm';
      assert j == 0 || j == 1 || j == 2 || j == 3 || j == 4 || j == 5 || j == 6 || j == 7 || j == 8 || j == 9 || j == 10 || j == 11;
      assert |MonthNames[j]| != 6 || Lower(MonthNames[j])[0] != 'm';
    }
  }

  /** No match can start before `k` if no "on" starts there. */
  lemma NoMatchBefore(s: string, k: nat)
    requires forall j :: 0 <= j < k && j + 1 < |s| ==> s[j] != 'o' || s[j + 1] != 'n'
    ensures forall j: nat, w, d :: j < k ==> !PatternAt(s, j, w, d)
  {
    forall j: nat, w, d | j < k ensures !PatternAt(s, j, w, d) {
      if j + 3 <= |s| {
        assert s[j..j + 3][0] == s[j] && s[j..j + 3][1] == s[j + 1];
      }
    }
  }

  lemma RideOnMarch5Match(s: string)
    requires s == "Your ride on March 5"
    ensures PatternAt(s, 10, "March", "5")
    ensures forall j: nat, w, d :: j < 10 ==> !PatternAt(s, j, w, d)
  {
    assert s[0] == 'Y' && s[1] == 'o' && s[2] == 'u' && s[3] == 'r' && s[4] == ' ';
    assert s[5] == 'r' && s[6] == 'i' && s[7] == 'd' && s[8] == 'e' && s[9] == ' ';
    forall j | 0 <= j < 10 && j + 1 < |s| ensures s[j] != 'o' || s[j + 1] != 'n' {
      if j == 1 {
      } else {
        assert j == 0 || 2 <= j <= 9;
      }
    }
    NoMatchBefore(s, 10);
    assert s[10..13] == "on " && s[13..18] == "March" && s[18] == ' ' && s[19..20] == "5";
  }

  lemma SubjectDate20240305()
    ensures SubjectDate(2024, 3, 5) == "20240305"
  {
    ShowYear2024();
    assert ZeroPad(Show(3), 2) == "03" && ZeroPad(Show(5), 2) == "05";
  }

  /** "Your ride on March 5" in a message dated 9 June 2024 gives 20240305. */
  lemma RideOnMarch5(subject: string, date: Date)
    requires subject == "Your ride on March 5" && date == Date(2024, 6, 9)
    ensures ExtractDateFromSubject(subject, date) == "20240305"
  {
    RideOnMarch5Match(subject);
    MarchIsThird();
    assert Value("5") == 5;
    LeftmostMatchDecides(subject, date, 10, "March", "5");
    SubjectDate20240305();
  }

  lemma Value045()
    ensures Value("045") == 45
  {
    assert "045"[..2] == "04";
    assert "04"[..1] == "0";
    assert "0"[..0] == "";
  }

  lemma SubjectDate20240345()
    ensures SubjectDate(2024, 3, 45) == "20240345"
  {
    ShowYear2024();
    assert Show(45) == "45";
    assert ZeroPad(Show(3), 2) == "03" && ZeroPad(Show(45), 2) == "45";
  }

  /**
    "on march 045" gives day 45: the month name is read in any case, the
    leading zero of the day is dropped and no calendar check is made.
   */
  lemma DayNotChecked(subject: string, date: Date)
    requires subject == "on march 045" && date == Date(2024, 6, 9)
    ensures ExtractDateFromSubject(subject, date) == "20240345"
  {
    assert subject == "on " + "march" + " " + "045" + "";
    PatternAtStart(subject, "march", "045", "");
    MarchIsThird();
    Value045();
    LeftmostMatchDecides(subject, date, 0, "march", "045");
    SubjectDate20240345();
  }

  lemma Date20240609(date: Date)
    requires date == Date(2024, 6, 9)
    ensures FormatDate(date) == "20240609"
  {
    ShowYear2024();
    assert ZeroPad(Show(6), 2) == "06" && ZeroPad(Show(9), 2) == "09";
    assert FormatDate(date) == ZeroPad(Show(2024), 4) + ZeroPad(Show(6), 2) + ZeroPad(Show(9), 2);
  }

  /** The leftmost match "on Monday 5" is not a month, so the later "on March 7" is never tried. */
  lemma OnlyLeftmostTried(subject: string, date: Date)
    requires subject == "on Monday 5, on March 7" && date == Date(2024, 6, 9)
    ensures ExtractDateFromSubject(subject, date) == "20240609"
  {
    assert subject == "on " + "Monday" + " " + "5" + ", on March 7";
    PatternAtStart(subject, "Monday", "5", ", on March 7");
    MondayIsNoMonth();
    LeftmostMatchDecides(subject, date, 0, "Monday", "5");
    Date20240609(date);
  }

  /** A cell reading " $12.34 " is cleaned to "12.34". */
  lemma CleanDollarAmount(text: string)
    requires text == " $12.34 "
    ensures CleanAmount(text) == "12.34"
  {
    assert text == " $" + "12.34" + " ";
    CleanAmountExact(" $", "12.34", " ");
  }

  /**
    Whitespace inside an amount survives cleaning: " $1 2 " gives "1 2",
    not the "12" that dropping every whitespace character would give.
   */
  lemma InteriorSpaceKept(text: string)
    requires text == " $1 2 "
    ensures CleanAmount(text) == "1 2" && Significant(text) == "12"
    ensures CleanAmount(text) != Significant(text)
  {
    assert text == " $" + "1 2" + " ";
    CleanAmountExact(" $", "1 2", " ");
    SignificantOfSpacedAmount();
    assert "1 2"[1] != "12"[1];
  }

  lemma SignificantOfSpacedAmount()
    ensures Significant(" $1 2 ") == "12"
  {
    assert Significant(" ") == [] by { assert " "[1..] == ""; }
    assert Significant("2 ") == "2" by { assert "2 "[1..] == " "; }
    assert Significant(" 2 ") == "2" by { assert " 2 "[1..] == "2 "; }
    assert Significant("1 2 ") == "12" by { assert "1 2 "[1..] == " 2 "; }
    assert Significant("$1 2 ") == "12" by { assert "$1 2 "[1..] == "1 2 "; }
    assert " $1 2 "[1..] == "$1 2 ";
  }
}
