/** ui/class_subject_management_ui.py: the text of a class list line and
 *  how a clicked line is read back into the form, the subject search, and
 *  the checks the add and update handlers run on the subject form before
 *  they call the repository. */
module ClassSubject {
  import opened Common

  // ---------------------------------------------------------------------
  // Class list lines
  // ---------------------------------------------------------------------

  const Separator: string := " - "

  /** f"{ma_lop} - {ten_lop} ({khoa})". */
  function ClassLine(code: string, name: string, faculty: string): (line: string)
    ensures |line| == |code| + |name| + |faculty| + 6
    ensures line[..|code|] == code && OccursAt(line, Separator, |code|)
    ensures line[|line| - 1] == ')'
  {
    code + Separator + name + " (" + faculty + ")"
  }

  /** The three form fields on_class_item_clicked fills in. */
  datatype ClassFields = ClassFields(code: string, name: string, faculty: string)

  /** text[a:b] for 0 <= a and b <= |text|: empty when b < a. */
  function Slice(text: string, a: nat, b: nat): (r: string)
    requires a <= |text| && b <= |text|
    ensures a <= b ==> r == text[a..b]
    ensures b < a ==> r == []
  {
    if a <= b then text[a..b] else []
  }

  /** on_class_item_clicked. Without " - " nothing is filled in (None).
   *  Otherwise the code is the text before the first " - ". If the rest
   *  contains both parentheses, the name is the stripped text before the
   *  last '(' and the faculty the stripped text between the last '(' and
   *  the last ')'; otherwise the name is the whole rest, unstripped, and
   *  the faculty is empty. */
  function ParseClassLine(text: string): (r: Option<ClassFields>)
    ensures r.None? <==> !Contains(text, Separator)
    ensures r.Some? ==> OccursAt(text, Separator, |r.value.code|)
                        && r.value.code == text[..|r.value.code|]
                        && !Contains(r.value.code + " -", Separator)
  {
    match Find(text, Separator)
    case None => None
    case Some(i) =>
      var code := text[..i];
      var rest := text[i + 3..];
      assert !Contains(code + " -", Separator) by {
        assert text[i] == ' ' && text[i + 1] == '-' by {
          assert text[i..i + 3] == Separator;
        }
        assert code + " -" == text[..i + 2];
        forall j | 0 <= j <= |code + " -"| - 3
          ensures !OccursAt(code + " -", Separator, j)
        {
          if OccursAt(code + " -", Separator, j) {
            assert (code + " -")[j..j + 3] == text[..i + 2][j..j + 3] == text[j..j + 3];
            assert OccursAt(text, Separator, j);
          }
        }
      }
      match (RFind(rest, '('), RFind(rest, ')'))
      case (Some(open), Some(close)) =>
        Some(ClassFields(code, Strip(rest[..open]), Strip(Slice(rest, open + 1, close))))
      case _ =>
        Some(ClassFields(code, rest, ""))
  }

  /** In a line that starts with a code in which no " - " starts, the
   *  first " - " is the one after the code. */
  lemma FirstSeparatorAfterCode(code: string, tail: string)
    requires !Contains(code + " -", Separator)
    ensures Find(code + Separator + tail, Separator) == Some(|code|)
  {
    var line := code + Separator + tail;
    assert OccursAt(line, Separator, |code|);
    var i := Find(line, Separator).value;
    if i < |code| {
      assert line[i..i + 3] == (code + " -")[i..i + 3];
      assert OccursAt(code + " -", Separator, i);
      assert false;
    }
  }

  /** The part after the separator: its last '(' and ')' are the ones the
   *  format added when the faculty has none. */
  lemma ParenthesesOfRest(name: string, faculty: string)
    requires '(' !in faculty && ')' !in faculty
    ensures var rest := name + " (" + faculty + ")";
            && RFind(rest, '(') == Some(|name| + 1)
            && RFind(rest, ')') == Some(|rest| - 1)
            && Strip(rest[..|name| + 1]) == Strip(name)
            && rest[|name| + 2..|rest| - 1] == faculty
  {
    var rest := name + " (" + faculty + ")";
    var open := |name| + 1;
    var close := |rest| - 1;
    assert rest[open] == '(' && rest[close] == ')';
    forall j | open < j < |rest|
      ensures rest[j] != '('
    {
      if j < close {
        assert rest[j] == faculty[j - open - 1];
      }
    }
    assert rest[..open] == name + " ";
    StripAppendSpace(name);
    assert rest[open + 1..close] == faculty;
  }

  /** Reading back a line that was formatted from a code in which no
   *  " - " starts, and a faculty without parentheses, gives the code and
   *  the stripped name and faculty. */
  lemma ClassLineRoundTrip(code: string, name: string, faculty: string)
    requires !Contains(code + " -", Separator)
    requires '(' !in faculty && ')' !in faculty
    ensures ParseClassLine(ClassLine(code, name, faculty))
              == Some(ClassFields(code, Strip(name), Strip(faculty)))
  {
    var rest := name + " (" + faculty + ")";
    var line := code + Separator + rest;
    assert ClassLine(code, name, faculty) == line;
    FirstSeparatorAfterCode(code, rest);
    assert line[..|code|] == code && line[|code| + 3..] == rest;
    ParenthesesOfRest(name, faculty);
  }

  // ---------------------------------------------------------------------
  // Subject search
  // ---------------------------------------------------------------------

  datatype Subject = Subject(code: string, name: string, credits: int)

  /** The combo item that searches by subject code. */
  const CodeMode: string := "M\U{00E3} m\U{00F4}n h\U{1ECD}c"

  /** The field a search looks at: the code in code mode, the name in any
   *  other mode, compared lower-cased. */
  predicate SubjectMatches(s: Subject, mode: string, query: string)
  {
    if mode == CodeMode then Contains(Lower(s.code), Lower(query))
    else Contains(Lower(s.name), Lower(query))
  }

  /** The subjects that match, in their original order. */
  function FilterSubjects(subjects: seq<Subject>, mode: string, query: string): (r: seq<Subject>)
    ensures |r| <= |subjects|
    ensures forall s :: s in r <==> s in subjects && SubjectMatches(s, mode, query)
  {
    if subjects == [] then []
    else
      var init := subjects[..|subjects| - 1];
      var last := subjects[|subjects| - 1];
      assert subjects == init + [last];
      FilterSubjects(init, mode, query) + (if SubjectMatches(last, mode, query) then [last] else [])
  }

  /** Filtering a concatenation filters each part. */
  lemma {:induction false} FilterSubjectsAppend(a: seq<Subject>, b: seq<Subject>, mode: string, query: string)
    ensures FilterSubjects(a + b, mode, query) == FilterSubjects(a, mode, query) + FilterSubjects(b, mode, query)
    decreases |b|
  {
    if b == [] {
      assert a + b == a;
    } else {
      var init := b[..|b| - 1];
      assert a + b == (a + init) + [b[|b| - 1]];
      assert (a + b)[..|a + b| - 1] == a + init;
      FilterSubjectsAppend(a, init, mode, query);
    }
  }

  /** Searching again within the results of the same search changes
   *  nothing. */
  lemma {:induction false} FilterSubjectsIdempotent(subjects: seq<Subject>, mode: string, query: string)
    ensures FilterSubjects(FilterSubjects(subjects, mode, query), mode, query)
              == FilterSubjects(subjects, mode, query)
    decreases |subjects|
  {
    if subjects != [] {
      var init := subjects[..|subjects| - 1];
      var last := subjects[|subjects| - 1];
      var kept := if SubjectMatches(last, mode, query) then [last] else [];
      FilterSubjectsIdempotent(init, mode, query);
      FilterSubjectsAppend(FilterSubjects(init, mode, query), kept, mode, query);
      if kept != [] {
        assert kept == [] + [last];
      }
    }
  }

  /** search_subjects. None means the table is left as it was: there is no
   *  database, the stripped query is empty, or there are no subjects.
   *  Otherwise the table shows the matching subjects in order. */
  method SearchSubjects(connected: bool, mode: string, queryText: string, allSubjects: seq<Subject>)
    returns (shown: Option<seq<Subject>>)
    ensures shown.None? <==> !connected || Strip(queryText) == [] || allSubjects == []
    ensures shown.Some? ==> shown.value == FilterSubjects(allSubjects, mode, Strip(queryText))
  {
    if !connected {
      return None;
    }
    var query := Strip(queryText);
    if query == [] {
      return None;
    }
    if allSubjects == [] {
      return None;
    }
    var filtered: seq<Subject> := [];
    var i := 0;
    while i < |allSubjects|
      invariant 0 <= i <= |allSubjects|
      invariant filtered == FilterSubjects(allSubjects[..i], mode, query)
    {
      var subject := allSubjects[i];
      ghost var upTo := allSubjects[..i + 1];
      assert upTo[..|upTo| - 1] == allSubjects[..i] && upTo[|upTo| - 1] == subject;
      if mode == CodeMode {
        if Contains(Lower(subject.code), Lower(query)) {
          filtered := filtered + [subject];
        }
      } else {
        if Contains(Lower(subject.name), Lower(query)) {
          filtered := filtered + [subject];
        }
      }
      i := i + 1;
    }
    assert allSubjects[..i] == allSubjects;
    return Some(filtered);
  }

  // ---------------------------------------------------------------------
  // Subject form checks
  // ---------------------------------------------------------------------

  predicate IsDigit(c: char)
  {
    '0' <= c <= '9'
  }

  /** Digits with single underscores between them, as int() accepts. */
  predicate WellFormedDigits(d: string)
  {
    && |d| > 0
    && (forall i :: 0 <= i < |d| ==> IsDigit(d[i]) || d[i] == '_')
    && (forall i :: 0 <= i < |d| && d[i] == '_' ==> 0 < i < |d| - 1 && IsDigit(d[i - 1]) && IsDigit(d[i + 1]))
  }

  /** The value of the digits of `d`, underscores skipped. */
  function DigitsValue(d: string): nat
  {
    if d == [] then 0
    else if d[|d| - 1] == '_' then DigitsValue(d[..|d| - 1])
    else 10 * DigitsValue(d[..|d| - 1]) + (if IsDigit(d[|d| - 1]) then d[|d| - 1] as int - '0' as int else 0)
  }

  /** Python's int() on an already stripped string: an optional sign, then
   *  well-formed digits. None stands for ValueError. */
  function ParseInt(s: string): (r: Option<int>)
    ensures r.Some? ==> s != []
    ensures r.Some? && r.value < 0 ==> s[0] == '-'
  {
    if |s| > 0 && (s[0] == '+' || s[0] == '-') then
      if WellFormedDigits(s[1..]) then
        Some(if s[0] == '-' then -(DigitsValue(s[1..]) as int) else DigitsValue(s[1..]))
      else None
    else if WellFormedDigits(s) then Some(DigitsValue(s))
    else None
  }

  /** str(n) for a natural number. */
  function ShowNat(n: nat): (s: string)
    ensures |s| > 0 && forall i :: 0 <= i < |s| ==> IsDigit(s[i])
  {
    var digit := ('0' as int + n % 10) as char;
    if n < 10 then [digit] else ShowNat(n / 10) + [digit]
  }

  /** int() reads back what str() writes. */
  lemma {:induction false} ParseShowNat(n: nat)
    ensures DigitsValue(ShowNat(n)) == n
    ensures ParseInt(ShowNat(n)) == Some(n)
  {
    var s := ShowNat(n);
    if n >= 10 {
      ParseShowNat(n / 10);
      assert s[..|s| - 1] == ShowNat(n / 10);
    }
  }

  /** Why the add and update handlers refuse the subject form. */
  datatype SubjectError = NoDatabase | MissingField | CreditsNotANumber | CreditsNotPositive

  /** The checks add_subject and update_subject both run, in order: a
   *  database, three non-blank fields after stripping, credits that int()
   *  parses, credits above zero. On success, the subject they pass to the
   *  repository. */
  function CheckSubjectForm(connected: bool, codeText: string, nameText: string, creditsText: string)
    : (r: Result<Subject, SubjectError>)
    ensures r.Success? <==>
              && connected && Strip(codeText) != [] && Strip(nameText) != []
              && ParseInt(Strip(creditsText)).Some? && ParseInt(Strip(creditsText)).value > 0
    ensures r.Success? ==>
              r.value == Subject(Strip(codeText), Strip(nameText), ParseInt(Strip(creditsText)).value)
    ensures r == Failure(NoDatabase) <==> !connected
    ensures r == Failure(MissingField) <==>
              connected && (Strip(codeText) == [] || Strip(nameText) == [] || Strip(creditsText) == [])
    ensures r == Failure(CreditsNotANumber) <==>
              && connected && Strip(codeText) != [] && Strip(nameText) != [] && Strip(creditsText) != []
              && ParseInt(Strip(creditsText)).None?
    ensures r == Failure(CreditsNotPositive) <==>
              && connected && Strip(codeText) != [] && Strip(nameText) != [] && Strip(creditsText) != []
              && ParseInt(Strip(creditsText)).Some? && ParseInt(Strip(creditsText)).value <= 0
  {
    var code, name, credits := Strip(codeText), Strip(nameText), Strip(creditsText);
    if !connected then Failure(NoDatabase)
    else if code == [] || name == [] || credits == [] then Failure(MissingField)
    else match ParseInt(credits)
      case None => Failure(CreditsNotANumber)
      case Some(n) => if n <= 0 then Failure(CreditsNotPositive) else Success(Subject(code, name, n))
  }

  /** A form whose credits are written as a positive number is accepted
   *  with exactly that number; zero is refused as not positive. */
  lemma PositiveCreditsAccepted(code: string, name: string, credits: nat)
    requires Strip(code) != [] && Strip(name) != []
    ensures credits > 0 ==>
              CheckSubjectForm(true, code, name, ShowNat(credits))
                == Success(Subject(Strip(code), Strip(name), credits))
    ensures credits == 0 ==> CheckSubjectForm(true, code, name, ShowNat(credits)) == Failure(CreditsNotPositive)
  {
    ParseShowNat(credits);
    StripShowNat(credits);
  }

  /** str() of a number has no whitespace to strip. */
  lemma StripShowNat(n: nat)
    ensures Strip(ShowNat(n)) == ShowNat(n)
  {
    var s := ShowNat(n);
    assert !IsSpace(s[0]) && !IsSpace(s[|s| - 1]);
    assert StripLeft(s) == s;
  }
}
