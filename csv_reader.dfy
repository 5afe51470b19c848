/**
 * CSVReader.java over a list of lines: the header check, the skipping of
 * blank lines and the parsing of one line into an employee record.
 *
 * Reading the file and splitting it into lines is not part of this model;
 * `Double.parseDouble` is the parameter `parse`, a partial function from
 * text to a salary (`None` where Java throws `NumberFormatException`).
 */
module CsvReader {
  import opened Wrappers
  import opened Model

  /** The text every file must start with. */
  const Header: string := "Id,firstName,lastName,salary,managerId"

  /** The message of the `IOException` thrown for a missing or wrong header. */
  const HeaderError: string := "Invalid CSV format. Expected header: Id,firstName,lastName,salary,managerId"

  /** Java's `String.startsWith`. */
  predicate StartsWith(s: string, prefix: string)
  {
    |prefix| <= |s| && s[..|prefix|] == prefix
  }

  /** Java's `String.trim` drops every character up to U+0020 at either end. */
  predicate IsTrimmed(c: char)
  {
    c <= ' '
  }

  /** `s` without its leading trimmed characters. */
  function TrimStart(s: string): (r: string)
    ensures |r| <= |s|
  {
    if s != [] && IsTrimmed(s[0]) then TrimStart(s[1..]) else s
  }

  /** `s` without its trailing trimmed characters. */
  function TrimEnd(s: string): (r: string)
    ensures |r| <= |s|
  {
    if s != [] && IsTrimmed(s[|s| - 1]) then TrimEnd(s[..|s| - 1]) else s
  }

  /** TrimStart drops a run of trimmed characters and stops at the first other one. */
  lemma {:induction false} TrimStartMeaning(s: string)
    ensures TrimStart(s) == s[|s| - |TrimStart(s)|..]
    ensures forall k | 0 <= k < |s| - |TrimStart(s)| :: IsTrimmed(s[k])
    ensures TrimStart(s) != [] ==> !IsTrimmed(TrimStart(s)[0])
  {
    if s != [] && IsTrimmed(s[0]) {
      TrimStartMeaning(s[1..]);
      assert forall k | 1 <= k < |s| :: s[k] == s[1..][k - 1];
    }
  }

  /** TrimEnd drops a run of trimmed characters and stops at the last other one. */
  lemma {:induction false} TrimEndMeaning(s: string)
    ensures TrimEnd(s) == s[..|TrimEnd(s)|]
    ensures forall k | |TrimEnd(s)| <= k < |s| :: IsTrimmed(s[k])
    ensures TrimEnd(s) != [] ==> !IsTrimmed(TrimEnd(s)[|TrimEnd(s)| - 1])
  {
    if s != [] && IsTrimmed(s[|s| - 1]) {
      TrimEndMeaning(s[..|s| - 1]);
      assert forall k | 0 <= k < |s| - 1 :: s[k] == s[..|s| - 1][k];
    }
  }

  /** Java's `String.trim`. */
  function Trim(s: string): string
  {
    TrimEnd(TrimStart(s))
  }

  /** Trimming keeps a middle stretch of `s` and drops only trimmed characters around it. */
  lemma TrimMeaning(s: string)
    ensures var i := |s| - |TrimStart(s)|;
      var j := i + |Trim(s)|;
      Trim(s) == s[i..j] &&
      (forall k | 0 <= k < i :: IsTrimmed(s[k])) &&
      (forall k | j <= k < |s| :: IsTrimmed(s[k]))
    ensures Trim(s) != [] ==> !IsTrimmed(Trim(s)[0]) && !IsTrimmed(Trim(s)[|Trim(s)| - 1])
  {
    var t := TrimStart(s);
    TrimStartMeaning(s);
    TrimEndMeaning(t);
    var i := |s| - |t|;
    var r := TrimEnd(t);
    var j := i + |r|;
    assert t == s[i..];
    assert r == t[..|r|];
    assert Trim(s) == s[i..j];
    forall k | j <= k < |s|
      ensures IsTrimmed(s[k])
    {
      assert s[k] == t[k - i];
      assert |r| <= k - i < |t|;
    }
    if r != [] {
      assert r[0] == t[0];
    }
  }

  /** Trimming twice is trimming once. */
  lemma TrimIdempotent(s: string)
    ensures Trim(Trim(s)) == Trim(s)
  {
    var r := Trim(s);
    TrimMeaning(s);
    if r != [] {
      TrimStartMeaning(r);
      TrimEndMeaning(r);
      assert TrimStart(r) == r;
    }
  }

  /** The text is empty after trimming iff it holds only trimmed characters. */
  lemma TrimEmpty(s: string)
    ensures Trim(s) == [] <==> forall k | 0 <= k < |s| :: IsTrimmed(s[k])
  {
    TrimMeaning(s);
    var i := |s| - |TrimStart(s)|;
    if Trim(s) != [] {
      assert Trim(s)[0] == s[i];
    }
  }

  /** Java's `line.split(",", -1)`: the text between commas, empty pieces kept. */
  function Split(s: string): (parts: seq<string>)
    ensures |parts| >= 1
  {
    if s == [] then [""]
    else
      var parts := Split(s[..|s| - 1]);
      var c := s[|s| - 1];
      if c == ',' then parts + [""]
      else
        var last := parts[|parts| - 1] + [c];
        parts[..|parts| - 1] + [last]
  }

  /** No piece holds a comma. */
  lemma {:induction false} SplitCommaFree(s: string)
    ensures forall p | p in Split(s) :: ',' !in p
  {
    if s != [] {
      var init := s[..|s| - 1];
      SplitCommaFree(init);
      var parts := Split(init);
      var c := s[|s| - 1];
      if c != ',' {
        var last := parts[|parts| - 1];
        assert last in parts;
        assert ',' !in last + [c];
        assert forall p | p in parts[..|parts| - 1] :: p in parts;
      }
    }
  }

  /** The pieces put back together with commas between them. */
  function Join(parts: seq<string>): string
    requires |parts| >= 1
  {
    if |parts| == 1 then parts[0]
    else Join(parts[..|parts| - 1]) + "," + parts[|parts| - 1]
  }

  /** Joining one more piece adds a comma and that piece. */
  lemma JoinSnoc(parts: seq<string>, p: string)
    requires |parts| >= 1
    ensures Join(parts + [p]) == Join(parts) + "," + p
  {
    assert (parts + [p])[..|parts|] == parts;
  }

  /** Growing the last piece by a character grows the joined text by it. */
  lemma JoinGrowLast(init: seq<string>, last: string, c: char)
    ensures Join(init + [last + [c]]) == Join(init + [last]) + [c]
  {
    if init == [] {
      assert init + [last + [c]] == [last + [c]];
      assert init + [last] == [last];
    } else {
      JoinSnoc(init, last + [c]);
      JoinSnoc(init, last);
      var j := Join(init);
      assert j + "," + (last + [c]) == (j + "," + last) + [c];
    }
  }

  /** Splitting loses nothing: joining the pieces gives the line back. */
  lemma {:induction false} JoinSplit(s: string)
    ensures Join(Split(s)) == s
  {
    if s != [] {
      var init := s[..|s| - 1];
      var c := s[|s| - 1];
      JoinSplit(init);
      assert s == init + [c];
      if c == ',' {
        JoinSnoc(Split(init), "");
      } else {
        var parts := Split(init);
        assert parts == parts[..|parts| - 1] + [parts[|parts| - 1]];
        JoinGrowLast(parts[..|parts| - 1], parts[|parts| - 1], c);
      }
    }
  }

  /** Text without a comma is one piece. */
  lemma {:induction false} SplitNoComma(p: string)
    requires ',' !in p
    ensures Split(p) == [p]
  {
    if p != [] {
      var init := p[..|p| - 1];
      assert forall x | x in init :: x in p;
      SplitNoComma(init);
      assert p == init + [p[|p| - 1]];
    }
  }

  /** A comma and a comma-free piece appended give one more piece. */
  lemma {:induction false} SplitExtend(s: string, p: string)
    requires ',' !in p
    ensures Split(s + "," + p) == Split(s) + [p]
  {
    if p == [] {
      assert s + "," + p == s + ",";
      assert (s + ",")[..|s|] == s;
    } else {
      var init := p[..|p| - 1];
      var c := p[|p| - 1];
      assert forall x | x in init :: x in p;
      SplitExtend(s, init);
      assert p == init + [c];
      var t := s + "," + p;
      assert t[..|t| - 1] == s + "," + init;
      assert t[|t| - 1] == c;
    }
  }

  /** Splitting comma-free pieces joined with commas gives the pieces back. */
  lemma {:induction false} SplitJoin(parts: seq<string>)
    requires |parts| >= 1
    requires forall p | p in parts :: ',' !in p
    ensures Split(Join(parts)) == parts
  {
    if |parts| == 1 {
      assert parts[0] in parts;
      SplitNoComma(parts[0]);
    } else {
      var init := parts[..|parts| - 1];
      assert forall p | p in init :: p in parts;
      SplitJoin(init);
      assert parts[|parts| - 1] in parts;
      SplitExtend(Join(init), parts[|parts| - 1]);
      assert init + [parts[|parts| - 1]] == parts;
    }
  }

  /** There is one piece more than there are commas. */
  lemma {:induction false} SplitCount(s: string)
    ensures |Split(s)| == multiset(s)[','] + 1
  {
    if s != [] {
      var init := s[..|s| - 1];
      SplitCount(init);
      assert s == init + [s[|s| - 1]];
      assert multiset(s) == multiset(init) + multiset{s[|s| - 1]};
    }
  }

  /** A manager id that is empty after trimming is absent. */
  function ManagerOf(field: string): (m: Option<string>)
    ensures m.None? <==> Trim(field) == []
    ensures m.Some? ==> m.value == Trim(field)
  {
    var managerId := Trim(field);
    if managerId == [] then None else Some(managerId)
  }

  /**
   * parseEmployeeLine: exactly five pieces, each trimmed; a salary `parse`
   * rejects drops the line.
   */
  function ParseEmployeeLine(line: string, parse: string -> Option<real>): Option<Employee>
  {
    var parts := Split(line);
    if |parts| != 5 then None
    else
      match parse(Trim(parts[3]))
      case None => None
      case Some(salary) =>
        Some(Employee(Trim(parts[0]), Trim(parts[1]), Trim(parts[2]), salary, ManagerOf(parts[4])))
  }

  /**
   * A line is accepted iff it has exactly four commas and its trimmed fourth
   * piece parses; the record's fields are then the trimmed pieces.
   */
  lemma ParseEmployeeLineMeaning(line: string, parse: string -> Option<real>)
    ensures |Split(line)| == 5 <==> multiset(line)[','] == 4
    ensures ParseEmployeeLine(line, parse).Some? <==>
      |Split(line)| == 5 && parse(Trim(Split(line)[3])).Some?
    ensures var parts := Split(line);
      ParseEmployeeLine(line, parse).Some? ==>
        var e := ParseEmployeeLine(line, parse).value;
        e.id == Trim(parts[0]) && e.firstName == Trim(parts[1]) && e.lastName == Trim(parts[2]) &&
        parse(Trim(parts[3])) == Some(e.salary) && e.managerId == ManagerOf(parts[4])
  {
    SplitCount(line);
  }

  /** An accepted record's text fields are trimmed and comma-free, and a present manager id is not empty. */
  lemma ParsedFieldsClean(line: string, parse: string -> Option<real>)
    requires ParseEmployeeLine(line, parse).Some?
    ensures var e := ParseEmployeeLine(line, parse).value;
      CleanField(e.id) && CleanField(e.firstName) && CleanField(e.lastName) &&
      (e.managerId.Some? ==> CleanField(e.managerId.value) && e.managerId.value != [])
  {
    var parts := Split(line);
    SplitCommaFree(line);
    forall i | 0 <= i < 5 ensures CleanField(Trim(parts[i])) {
      assert parts[i] in parts;
      TrimIdempotent(parts[i]);
      TrimSubsequence(parts[i]);
    }
  }

  /** Trimming adds no character. */
  lemma TrimSubsequence(s: string)
    ensures forall x | x in Trim(s) :: x in s
  {
    TrimMeaning(s);
    var i := |s| - |TrimStart(s)|;
    forall x | x in Trim(s) ensures x in s {
      var k :| 0 <= k < |Trim(s)| && Trim(s)[k] == x;
      assert s[i + k] == x;
    }
  }

  /** The line a record would be written as, with `show` printing the salary. */
  function FormatLine(e: Employee, show: real -> string): string
  {
    Join([e.id, e.firstName, e.lastName, show(e.salary),
          match e.managerId case None => "" case Some(m) => m])
  }

  /** A field that survives the round trip: no comma and nothing to trim at its ends. */
  predicate CleanField(f: string)
  {
    ',' !in f && Trim(f) == f
  }

  /**
   * Parsing a formatted record gives it back, when its fields are clean,
   * a present manager id is not empty, and `parse` reads what `show` prints.
   */
  lemma ParseFormatted(e: Employee, show: real -> string, parse: string -> Option<real>)
    requires CleanField(e.id) && CleanField(e.firstName) && CleanField(e.lastName)
    requires ',' !in show(e.salary) && parse(Trim(show(e.salary))) == Some(e.salary)
    requires e.managerId.Some? ==> CleanField(e.managerId.value) && e.managerId.value != []
    ensures ParseEmployeeLine(FormatLine(e, show), parse) == Some(e)
  {
    var m := match e.managerId case None => "" case Some(m) => m;
    var parts := [e.id, e.firstName, e.lastName, show(e.salary), m];
    SplitJoin(parts);
    SplitCount(FormatLine(e, show));
    assert Split(FormatLine(e, show)) == parts;
    assert Trim("") == "";
  }

  /** A blank line has no comma, so parsing it fails anyway. */
  lemma BlankLineRejected(line: string, parse: string -> Option<real>)
    requires Trim(line) == []
    ensures ParseEmployeeLine(line, parse) == None
  {
    TrimEmpty(line);
    assert ',' !in line;
    SplitNoComma(line);
  }

  /** The employees of the data lines, in line order; blank and rejected lines add none. */
  function ParseLines(lines: seq<string>, parse: string -> Option<real>): (es: seq<Employee>)
    ensures |es| <= |lines|
  {
    if lines == [] then []
    else ParseLines(lines[..|lines| - 1], parse) + LineEmployees(lines[|lines| - 1], parse)
  }

  /** What one data line adds: nothing when it is blank or rejected, else its record. */
  function LineEmployees(line: string, parse: string -> Option<real>): (es: seq<Employee>)
    ensures |es| <= 1
  {
    if Trim(line) == [] then []
    else match ParseEmployeeLine(line, parse)
      case None => []
      case Some(e) => [e]
  }

  /** One more data line adds that line's contribution. */
  lemma ParseLinesStep(lines: seq<string>, i: nat, parse: string -> Option<real>)
    requires i < |lines|
    ensures ParseLines(lines[..i + 1], parse) == ParseLines(lines[..i], parse) + LineEmployees(lines[i], parse)
  {
    assert lines[..i + 1][..i] == lines[..i];
  }

  /** readEmployees as a function of the file's lines. */
  function Read(lines: seq<string>, parse: string -> Option<real>): (r: Result<seq<Employee>, string>)
    ensures r.Failure? <==> lines == [] || !StartsWith(lines[0], Header)
    ensures r.Failure? ==> r.error == HeaderError
    ensures r.Success? ==> r.value == ParseLines(lines[1..], parse)
  {
    if lines == [] || !StartsWith(lines[0], Header) then Failure(HeaderError)
    else Success(ParseLines(lines[1..], parse))
  }

  /** The employees of two runs of lines are those of each run, in order. */
  lemma {:induction false} ParseLinesConcat(xs: seq<string>, ys: seq<string>, parse: string -> Option<real>)
    ensures ParseLines(xs + ys, parse) == ParseLines(xs, parse) + ParseLines(ys, parse)
    decreases |ys|
  {
    if ys == [] {
      assert xs + ys == xs;
    } else {
      var init := ys[..|ys| - 1];
      assert (xs + ys)[..|xs + ys| - 1] == xs + init;
      ParseLinesConcat(xs, init, parse);
    }
  }

  /** One line alone yields its record if it parses and nothing otherwise. */
  lemma ParseOneLine(line: string, parse: string -> Option<real>)
    ensures ParseLines([line], parse) ==
      match ParseEmployeeLine(line, parse) case None => [] case Some(e) => [e]
  {
    assert [line][..0] == [];
    if Trim(line) == [] {
      BlankLineRejected(line, parse);
    }
  }

  /** Every employee read comes from a data line that parses to it. */
  lemma {:induction false} ParsedFromSomeLine(lines: seq<string>, parse: string -> Option<real>, e: Employee)
    requires e in ParseLines(lines, parse)
    ensures exists k | 0 <= k < |lines| :: ParseEmployeeLine(lines[k], parse) == Some(e)
  {
    var init := lines[..|lines| - 1];
    var line := lines[|lines| - 1];
    if e in ParseLines(init, parse) {
      ParsedFromSomeLine(init, parse, e);
      var k :| 0 <= k < |init| && ParseEmployeeLine(init[k], parse) == Some(e);
      assert lines[k] == init[k];
    } else {
      assert ParseEmployeeLine(line, parse) == Some(e);
    }
  }

  /** A header followed by extra text is still accepted. */
  lemma HeaderPrefixAccepted(extra: string, data: seq<string>, parse: string -> Option<real>)
    ensures Read([Header + extra] + data, parse) == Success(ParseLines(data, parse))
  {
    assert (Header + extra)[..|Header|] == Header;
    assert ([Header + extra] + data)[1..] == data;
  }

  /** readEmployees: check the header, then read the data lines one at a time. */
  method ReadEmployees(lines: seq<string>, parse: string -> Option<real>)
    returns (r: Result<seq<Employee>, string>)
    ensures r == Read(lines, parse)
  {
    if |lines| == 0 || !StartsWith(lines[0], Header) {
      return Failure(HeaderError);
    }
    var data := lines[1..];
    var employees: seq<Employee> := [];
    var i := 0;
    while i < |data|
      invariant 0 <= i <= |data|
      invariant employees == ParseLines(data[..i], parse)
    {
      var line := data[i];
      ParseLinesStep(data, i, parse);
      if Trim(line) != [] {
        var employee := ParseEmployeeLine(line, parse);
        if employee.Some? {
          employees := employees + [employee.value];
        }
      }
      i := i + 1;
    }
    assert data[..i] == data;
    r := Success(employees);
  }
}
