/**
  The output naming of `PDFGenerator` (src/email_to_pdf/handlers/pdf_handler.py):
  the base name built from the parsed email, and the probe that turns it
  into the first file name not yet present in the working directory.
  The directory is a snapshot: the set of file names that exist.
 */
module PdfHandler {
  import opened Wrappers
  import opened Decimal
  import opened Text
  import opened EmailParser

  // ---------------------------------------------------------------------------
  // Base name (`_generate_filename`, lines 63-75)

  /** `email_data.get(key)` is truthy: present and not the empty string. */
  predicate Truthy(v: Option<string>) {
    v.Some? && v.value != ""
  }

  /** The base name before path-unsafe characters are replaced. */
  function RawBaseName(date: string, total: Option<string>, gst: Option<string>): (r: string)
    ensures date + " - Lyft" <= r
  {
    date + " - Lyft"
      + (if Truthy(total) then " - " + total.value else "")
      + (if Truthy(gst) then " - GST " + gst.value else "")
  }

  /** `.replace("/", "-").replace(":", "-")`: no '/' or ':' survives, nothing else changes. */
  function Sanitize(s: string): (r: string)
    ensures |r| == |s|
    ensures forall i :: 0 <= i < |r| ==> r[i] != '/' && r[i] != ':'
    ensures forall i :: 0 <= i < |s| && s[i] != '/' && s[i] != ':' ==> r[i] == s[i]
    ensures forall i :: 0 <= i < |s| && (s[i] == '/' || s[i] == ':') ==> r[i] == '-'
  {
    ReplaceAll(ReplaceAll(s, '/', '-'), ':', '-')
  }

  /** The base name of the PDF for one parsed email. */
  function BaseName(email: ParsedEmail): (r: string)
    requires email.date.Valid()
    ensures PathSafe(r)
    ensures |r| == |RawBaseName(ExtractDateFromSubject(email.subject, email.date), email.total, email.gst)|
  {
    Sanitize(RawBaseName(ExtractDateFromSubject(email.subject, email.date), email.total, email.gst))
  }

  /** `sep.join(parts)` */
  function Join(parts: seq<string>, sep: string): string {
    if |parts| == 0 then ""
    else if |parts| == 1 then parts[0]
    else parts[0] + sep + Join(parts[1..], sep)
  }

  /** The segments of a base name: the date, the label, then the total and the GST when present. */
  function Segments(date: string, total: Option<string>, gst: Option<string>): seq<string> {
    [date, "Lyft"]
      + (if Truthy(total) then [total.value] else [])
      + (if Truthy(gst) then ["GST " + gst.value] else [])
  }

  /** Joining one more part adds the separator and the part at the end. */
  lemma {:induction false} JoinSnoc(parts: seq<string>, last: string, sep: string)
    requires parts != []
    ensures Join(parts + [last], sep) == Join(parts, sep) + sep + last
    decreases |parts|
  {
    if |parts| == 1 {
      assert parts + [last] == [parts[0]] + [last];
    } else {
      assert (parts + [last])[1..] == parts[1..] + [last];
      JoinSnoc(parts[1..], last, sep);
    }
  }

  /**
    The base name is its segments joined by " - ": the date, "Lyft", the
    total if truthy, then "GST <gst>" if truthy, in that order.
   */
  lemma RawBaseNameJoinsSegments(date: string, total: Option<string>, gst: Option<string>)
    ensures RawBaseName(date, total, gst) == Join(Segments(date, total, gst), " - ")
  {
    var sep := " - ";
    var head := [date, "Lyft"];
    var withTotal := head + (if Truthy(total) then [total.value] else []);
    var all := withTotal + (if Truthy(gst) then ["GST " + gst.value] else []);
    var a0 := date + " - Lyft";
    var a1 := a0 + (if Truthy(total) then " - " + total.value else "");
    var a2 := a1 + (if Truthy(gst) then " - GST " + gst.value else "");
    assert Join(head, sep) == a0 by {
      assert head[1..] == ["Lyft"];
      assert sep + "Lyft" == " - Lyft";
    }
    assert Join(withTotal, sep) == a1 by {
      if Truthy(total) {
        JoinSnoc(head, total.value, sep);
        assert a0 + sep + total.value == a0 + (" - " + total.value);
      } else {
        assert withTotal == head;
      }
    }
    assert Join(all, sep) == a2 by {
      if Truthy(gst) {
        JoinSnoc(withTotal, "GST " + gst.value, sep);
        assert sep + ("GST " + gst.value) == " - GST " + gst.value;
        assert a1 + sep + ("GST " + gst.value) == a1 + (" - GST " + gst.value);
      } else {
        assert all == withTotal;
      }
    }
    assert Segments(date, total, gst) == all;
    assert RawBaseName(date, total, gst) == a2;
  }

  /** `None` and `""` contribute nothing: only truthy amounts change the name. */
  lemma FalsyAmountsContributeNothing(date: string, total: Option<string>, gst: Option<string>)
    ensures !Truthy(total) ==> RawBaseName(date, total, gst) == RawBaseName(date, None, gst)
    ensures !Truthy(gst) ==> RawBaseName(date, total, gst) == RawBaseName(date, total, None)
    ensures !Truthy(total) && !Truthy(gst) ==> RawBaseName(date, total, gst) == date + " - Lyft"
  {
  }

  /** A cell holding only whitespace and '$' cleans to "" and so leaves no trace in the name. */
  lemma BlankCellsContributeNothing(date: string, totalCell: string, gstCell: string)
    requires Significant(totalCell) == [] && Significant(gstCell) == []
    ensures RawBaseName(date, Some(CleanAmount(totalCell)), Some(CleanAmount(gstCell))) == date + " - Lyft"
  {
    CleanAmountEmpty(totalCell);
    CleanAmountEmpty(gstCell);
    FalsyAmountsContributeNothing(date, Some(CleanAmount(totalCell)), Some(CleanAmount(gstCell)));
  }

  predicate PathSafe(s: string) {
    forall i :: 0 <= i < |s| ==> s[i] != '/' && s[i] != ':'
  }

  lemma DigitsArePathSafe(s: string)
    requires AllDigits(s)
    ensures PathSafe(s)
  {
  }

  /**
    The base name starts with the date from the subject followed by
    " - Lyft", and contains neither '/' nor ':'.
   */
  lemma BaseNameStartsWithDate(email: ParsedEmail)
    requires email.date.Valid()
    ensures ExtractDateFromSubject(email.subject, email.date) + " - Lyft" <= BaseName(email)
    ensures PathSafe(BaseName(email))
  {
    var date := ExtractDateFromSubject(email.subject, email.date);
    var prefix := date + " - Lyft";
    var raw := RawBaseName(date, email.total, email.gst);
    assert raw[..|prefix|] == prefix;
    forall i | 0 <= i < |prefix| ensures prefix[i] != '/' && prefix[i] != ':' {
      if i < |date| {
        assert prefix[i] == date[i];
      }
    }
    var r := BaseName(email);
    assert r[..|prefix|] == prefix by {
      forall i | 0 <= i < |prefix| ensures r[i] == prefix[i] {
        assert raw[i] == prefix[i];
      }
    }
  }

  // ---------------------------------------------------------------------------
  // Collision probe (`_get_unique_filename`, lines 79-94)

  /** The name tried for `counter`: `base.pdf`, then `base (1).pdf`, `base (2).pdf`, ... (line 89). */
  function Candidate(base: string, counter: nat): (r: string)
    ensures base <= r && |r| >= |base| + 4 && r[|r| - 4..] == ".pdf"
  {
    base + (if counter == 0 then "" else " (" + Show(counter) + ")") + ".pdf"
  }

  /** Where the counter's digits sit inside a numbered candidate. */
  lemma CandidateDigits(base: string, counter: nat)
    requires counter != 0
    ensures |Candidate(base, counter)| == |base| + 7 + |Show(counter)|
    ensures Candidate(base, counter)[|base| + 2..|base| + 2 + |Show(counter)|] == Show(counter)
  {
    var digits := Show(counter);
    var c := Candidate(base, counter);
    assert c == (base + " (") + digits + (")" + ".pdf");
    SplitThree(base + " (", digits, ")" + ".pdf");
  }

  /** Different counters give different names. */
  lemma CandidateInjective(base: string, j: nat, k: nat)
    ensures Candidate(base, j) == Candidate(base, k) ==> j == k
  {
    if Candidate(base, j) == Candidate(base, k) && j != k {
      if j == 0 {
        CandidateDigits(base, k);
      } else if k == 0 {
        CandidateDigits(base, j);
      } else {
        CandidateDigits(base, j);
        CandidateDigits(base, k);
        ShowInjective(j, k);
      }
    }
  }

  /** The names of the first `n` counters. */
  ghost function Candidates(base: string, n: nat): set<string> {
    set j | 0 <= j < n :: Candidate(base, j)
  }

  /** There are `n` distinct names among the first `n` counters. */
  lemma {:induction false} CandidatesCount(base: string, n: nat)
    ensures |Candidates(base, n)| == n
    decreases n
  {
    if n > 0 {
      var prev, last := Candidates(base, n - 1), Candidate(base, n - 1);
      CandidatesCount(base, n - 1);
      forall j | 0 <= j < n - 1 ensures Candidate(base, j) != last {
        CandidateInjective(base, j, n - 1);
      }
      assert last !in prev;
      assert Candidates(base, n) == prev + {last};
    }
  }

  /** At most `|existing|` counters in a row can be taken, since their names are distinct. */
  lemma TakenCandidatesBound(base: string, existing: set<string>, n: nat)
    requires forall j :: 0 <= j < n ==> Candidate(base, j) in existing
    ensures n <= |existing|
  {
    var c := Candidates(base, n);
    CandidatesCount(base, n);
    assert c <= existing;
    assert existing == c + (existing - c);
    assert c * (existing - c) == {};
  }

  /** `counter` is the first counter whose name is free. */
  ghost predicate FirstFree(base: string, existing: set<string>, counter: nat) {
    && Candidate(base, counter) !in existing
    && forall j :: 0 <= j < counter ==> Candidate(base, j) in existing
  }

  /** The first free counter is unique and at most the number of existing names. */
  lemma FirstFreeUnique(base: string, existing: set<string>, j: nat, k: nat)
    requires FirstFree(base, existing, j) && FirstFree(base, existing, k)
    ensures j == k && j <= |existing|
  {
    TakenCandidatesBound(base, existing, j);
  }

  /**
    `_get_unique_filename`: tries the names in counter order and returns
    the first one that does not exist. It creates nothing.
   */
  method GetUniqueFilename(base: string, existing: set<string>) returns (filename: string)
    ensures filename !in existing
    ensures exists counter :: FirstFree(base, existing, counter) && filename == Candidate(base, counter)
    ensures base + ".pdf" !in existing ==> filename == base + ".pdf"
  {
    assert Candidate(base, 0) == base + ".pdf";
    var counter: nat := 0;
    while true
      invariant forall j :: 0 <= j < counter ==> Candidate(base, j) in existing
      invariant counter <= |existing|
      decreases |existing| - counter
    {
      filename := base + (if counter != 0 then " (" + Show(counter) + ")" else "") + ".pdf";
      assert filename == Candidate(base, counter);
      if filename !in existing {
        assert FirstFree(base, existing, counter);
        return;
      }
      TakenCandidatesBound(base, existing, counter + 1);
      counter := counter + 1;
    }
  }

  /**
    Two probes of the same directory state return the same name: the probe
    reserves nothing, so workers that probe before either one writes collide.
   */
  lemma ProbesAgree(base: string, existing: set<string>, name1: string, name2: string, k1: nat, k2: nat)
    requires FirstFree(base, existing, k1) && name1 == Candidate(base, k1)
    requires FirstFree(base, existing, k2) && name2 == Candidate(base, k2)
    ensures name1 == name2
  {
    FirstFreeUnique(base, existing, k1, k2);
  }

  lemma PrefixTransitive(a: string, b: string, c: string)
    requires a <= b && b <= c
    ensures a <= c
  {
    assert a == c[..|b|][..|a|];
  }

  /** A candidate name keeps the base as its prefix and adds no '/' or ':'. */
  lemma CandidateShape(base: string, counter: nat)
    ensures base <= Candidate(base, counter)
    ensures PathSafe(base) ==> PathSafe(Candidate(base, counter))
  {
    var c := Candidate(base, counter);
    var suffix := (if counter == 0 then "" else " (" + Show(counter) + ")") + ".pdf";
    assert c == base + suffix;
    if counter != 0 {
      DigitsArePathSafe(Show(counter));
    }
    assert PathSafe(suffix);
    if PathSafe(base) {
      forall i | 0 <= i < |c| ensures c[i] != '/' && c[i] != ':' {
        if i < |base| { assert c[i] == base[i]; } else { assert c[i] == suffix[i - |base|]; }
      }
    }
  }

  /**
    `_generate_filename`: the base name of the email, resolved against the
    names that already exist. The result begins with the subject date and
    " - Lyft", contains no '/' or ':', and does not exist yet.
   */
  method GenerateFilename(email: ParsedEmail, existing: set<string>) returns (filename: string)
    requires email.date.Valid()
    ensures filename !in existing
    ensures exists counter :: FirstFree(BaseName(email), existing, counter) && filename == Candidate(BaseName(email), counter)
    ensures PathSafe(filename)
    ensures ExtractDateFromSubject(email.subject, email.date) + " - Lyft" <= filename
  {
    var base := BaseName(email);
    filename := GetUniqueFilename(base, existing);
    ghost var counter :| FirstFree(base, existing, counter) && filename == Candidate(base, counter);
    BaseNameStartsWithDate(email);
    CandidateShape(base, counter);
    PrefixTransitive(ExtractDateFromSubject(email.subject, email.date) + " - Lyft", base, filename);
  }

  // ---------------------------------------------------------------------------
  // Reserving probe

  /**
    A naming arbiter that records each name it hands out in the same step
    as the existence check, so no later reservation can pick it again.
   */
  class NameArbiter {
    /** File names that exist or have been handed out. */
    var taken: set<string>

    constructor (existing: set<string>)
      ensures taken == existing
    {
      taken := existing;
    }

    /** The first free name for `base`, reserved before it is returned. */
    method ReserveUnique(base: string) returns (filename: string)
      modifies this
      ensures filename !in old(taken)
      ensures exists counter :: FirstFree(base, old(taken), counter) && filename == Candidate(base, counter)
      ensures taken == old(taken) + {filename}
    {
      filename := GetUniqueFilename(base, taken);
      taken := taken + {filename};
    }

    /**
      `_generate_filename` on top of a reserving probe: the same name the
      unreserved probe would give for this state, now recorded as taken.
     */
    method ReserveFilename(email: ParsedEmail) returns (filename: string)
      requires email.date.Valid()
      modifies this
      ensures filename !in old(taken)
      ensures exists counter :: FirstFree(BaseName(email), old(taken), counter) && filename == Candidate(BaseName(email), counter)
      ensures PathSafe(filename)
      ensures ExtractDateFromSubject(email.subject, email.date) + " - Lyft" <= filename
      ensures taken == old(taken) + {filename}
    {
      var base := BaseName(email);
      filename := ReserveUnique(base);
      ghost var counter :| FirstFree(base, old(taken), counter) && filename == Candidate(base, counter);
      BaseNameStartsWithDate(email);
      CandidateShape(base, counter);
      PrefixTransitive(ExtractDateFromSubject(email.subject, email.date) + " - Lyft", base, filename);
    }
  }

  /** The names handed out so far, as a set. */
  ghost function Handed(names: seq<string>): set<string> {
    set x | x in names
  }

  /**
    On top of a directory holding none of the first `count` names for
    `base`, once the first `|names|` of them have been handed out, the
    first free name is the candidate of `|names|`.
   */
  lemma NextFreeCounter(base: string, start: set<string>, names: seq<string>, count: nat, filename: string)
    requires |names| < count
    requires forall j :: 0 <= j < count ==> Candidate(base, j) !in start
    requires forall i :: 0 <= i < |names| ==> names[i] == Candidate(base, i)
    requires exists counter :: FirstFree(base, start + Handed(names), counter) && filename == Candidate(base, counter)
    ensures filename == Candidate(base, |names|)
  {
    var n := |names|;
    forall i | 0 <= i < n ensures names[i] != Candidate(base, n) {
      CandidateInjective(base, i, n);
    }
    assert forall j :: 0 <= j < n ==> Candidate(base, j) == names[j];
    assert FirstFree(base, start + Handed(names), n);
    var counter :| FirstFree(base, start + Handed(names), counter) && filename == Candidate(base, counter);
    FirstFreeUnique(base, start + Handed(names), counter, n);
  }

  /**
    One step of a run of reservations: appending the name just reserved
    keeps the names distinct and new, grows the taken set by that name, and
    on a directory holding none of the first `count` candidates keeps them
    in counter order.
   */
  lemma ReserveStep(base: string, start: set<string>, names: seq<string>, count: nat, clean: bool, filename: string)
    requires |names| < count
    requires clean == forall j :: 0 <= j < count ==> Candidate(base, j) !in start
    requires forall i, j :: 0 <= i < j < |names| ==> names[i] != names[j]
    requires forall i :: 0 <= i < |names| ==> names[i] !in start
    requires clean ==> forall i :: 0 <= i < |names| ==> names[i] == Candidate(base, i)
    requires exists counter :: FirstFree(base, start + Handed(names), counter) && filename == Candidate(base, counter)
    ensures forall i, j :: 0 <= i < j < |names| + 1 ==> (names + [filename])[i] != (names + [filename])[j]
    ensures forall i :: 0 <= i < |names| + 1 ==> (names + [filename])[i] !in start
    ensures Handed(names + [filename]) == Handed(names) + {filename}
    ensures clean ==> forall i :: 0 <= i < |names| + 1 ==> (names + [filename])[i] == Candidate(base, i)
  {
    if clean {
      NextFreeCounter(base, start, names, count, filename);
    }
    assert filename !in start + Handed(names);
    assert forall i :: 0 <= i < |names| ==> names[i] in Handed(names);
  }

  /**
    `count` reservations of one base name in a row get pairwise different
    names, none of which existed; starting from a directory holding no name
    for that base they are `base.pdf`, `base (1).pdf`, ..., in order.
   */
  method ReserveMany(arbiter: NameArbiter, base: string, count: nat) returns (names: seq<string>)
    modifies arbiter
    ensures |names| == count
    ensures forall i, j :: 0 <= i < j < count ==> names[i] != names[j]
    ensures forall i :: 0 <= i < count ==> names[i] !in old(arbiter.taken)
    ensures arbiter.taken == old(arbiter.taken) + Handed(names)
    ensures (forall j :: 0 <= j < count ==> Candidate(base, j) !in old(arbiter.taken)) ==>
      forall i :: 0 <= i < count ==> names[i] == Candidate(base, i)
  {
    ghost var start := arbiter.taken;
    ghost var fresh0 := forall j :: 0 <= j < count ==> Candidate(base, j) !in start;
    names := [];
    while |names| < count
      invariant |names| <= count
      invariant forall i, j :: 0 <= i < j < |names| ==> names[i] != names[j]
      invariant forall i :: 0 <= i < |names| ==> names[i] !in start
      invariant arbiter.taken == start + Handed(names)
      invariant fresh0 ==> forall i :: 0 <= i < |names| ==> names[i] == Candidate(base, i)
    {
      var filename := arbiter.ReserveUnique(base);
      ReserveStep(base, start, names, count, fresh0, filename);
      names := names + [filename];
    }
  }
}
