/** Parsing the control data of a package: lines of the form `field: value`. */
module AppInfo {
  import opened Wrappers
  import opened Exceptions

  /** `s.split(separator)`. */
  function SplitOn(s: string, separator: char): (pieces: seq<string>)
    ensures |pieces| > 0
    ensures |pieces| == 1 <==> separator !in s
  {
    if s == "" then [""]
    else
      var rest := SplitOn(s[1..], separator);
      if s[0] == separator then [""] + rest else [[s[0]] + rest[0]] + rest[1..]
  }

  function Join(pieces: seq<string>, separator: char): string
    requires pieces != []
  {
    if |pieces| == 1 then pieces[0] else pieces[0] + [separator] + Join(pieces[1..], separator)
  }

  /** The pieces are free of separators, and joined with them they give the text back. */
  lemma {:induction false} SplitJoins(s: string, separator: char)
    ensures Join(SplitOn(s, separator), separator) == s
    ensures forall i :: 0 <= i < |SplitOn(s, separator)| ==> separator !in SplitOn(s, separator)[i]
  {
    if s != "" {
      var rest := SplitOn(s[1..], separator);
      SplitJoins(s[1..], separator);
      if s[0] == separator {
        assert ([""] + rest)[1..] == rest;
      } else {
        assert ([[s[0]] + rest[0]] + rest[1..])[1..] == rest[1..];
      }
    }
  }

  /** ASCII white space as `str.isspace` has it. */
  predicate IsSpace(c: char) { c == ' ' || '\t' <= c <= '\r' || '\U{1C}' <= c <= '\U{1F}' }

  function LStrip(s: string): string {
    if s != "" && IsSpace(s[0]) then LStrip(s[1..]) else s
  }

  function RStrip(s: string): string {
    if s != "" && IsSpace(s[|s| - 1]) then RStrip(s[..|s| - 1]) else s
  }

  /** Stripping removes white space at one end, and nothing else. */
  lemma {:induction false} StripsOnlySpace(s: string)
    ensures var n := |s| - |LStrip(s)|;
            && n >= 0 && LStrip(s) == s[n..]
            && (forall i :: 0 <= i < n ==> s[i] in " \t\n\U{0B}\U{0C}\r\U{1C}\U{1D}\U{1E}\U{1F}")
            && (n < |s| ==> s[n] !in " \t\n\U{0B}\U{0C}\r\U{1C}\U{1D}\U{1E}\U{1F}")
    ensures var n := |RStrip(s)|;
            && n <= |s| && RStrip(s) == s[..n]
            && (forall i :: n <= i < |s| ==> s[i] in " \t\n\U{0B}\U{0C}\r\U{1C}\U{1D}\U{1E}\U{1F}")
            && (n > 0 ==> s[n - 1] !in " \t\n\U{0B}\U{0C}\r\U{1C}\U{1D}\U{1E}\U{1F}")
  {
    hide IsSpace;
    LStripsOnlySpace(s);
    RStripsOnlySpace(s);
    forall c: char { SpacesAre(c); }
  }

  lemma SpacesAre(c: char)
    ensures IsSpace(c) <==> c in " \t\n\U{0B}\U{0C}\r\U{1C}\U{1D}\U{1E}\U{1F}"
  {
    var all := " \t\n\U{0B}\U{0C}\r\U{1C}\U{1D}\U{1E}\U{1F}";
    assert all[0] == ' ' && all[1] == '\t' && all[2] == '\n' && all[3] == '\U{0B}' && all[4] == '\U{0C}';
    assert all[5] == '\r' && all[6] == '\U{1C}' && all[7] == '\U{1D}' && all[8] == '\U{1E}' && all[9] == '\U{1F}';
  }

  lemma {:induction false} LStripsOnlySpace(s: string)
    ensures var n := |s| - |LStrip(s)|;
            && n >= 0 && LStrip(s) == s[n..]
            && (forall i :: 0 <= i < n ==> IsSpace(s[i])) && (n < |s| ==> !IsSpace(s[n]))
  {
    hide IsSpace;
    if s != "" && IsSpace(s[0]) {
      LStripsOnlySpace(s[1..]);
      var n := |s[1..]| - |LStrip(s[1..])|;
      assert s[1..][n..] == s[n + 1..];
      assert forall i :: 0 < i < n + 1 ==> s[i] == s[1..][i - 1];
    } else {
      assert s[0..] == s;
    }
  }

  lemma {:induction false} RStripsOnlySpace(s: string)
    ensures var n := |RStrip(s)|;
            && n <= |s| && RStrip(s) == s[..n]
            && (forall i :: n <= i < |s| ==> IsSpace(s[i])) && (n > 0 ==> !IsSpace(s[n - 1]))
  {
    hide IsSpace;
    if s != "" && IsSpace(s[|s| - 1]) {
      var init := s[..|s| - 1];
      RStripsOnlySpace(init);
      assert init[..|RStrip(init)|] == s[..|RStrip(init)|];
    } else {
      assert s[..|s|] == s;
    }
  }

  /** A line with more than one colon, such as one with a URL in it. */
  predicate Malformed(line: string) { |SplitOn(line, ':')| > 2 }

  /** A line that gives a value to a field. */
  predicate Sets(line: string, field: string) {
    |SplitOn(line, ':')| == 2 && RStrip(SplitOn(line, ':')[0]) == field
  }

  function ValueIn(line: string): string
    requires |SplitOn(line, ':')| == 2
  {
    LStrip(SplitOn(line, ':')[1])
  }

  /** The value of a field: the last line that sets it counts. */
  function Lookup(lines: seq<string>, field: string): Option<string> {
    if lines == [] then None
    else
      var last := lines[|lines| - 1];
      if Sets(last, field) then Some(ValueIn(last)) else Lookup(lines[..|lines| - 1], field)
  }

  lemma NothingSet()
    ensures forall field :: Lookup([], field) == None
  {
  }

  lemma LookupSnoc(lines: seq<string>, i: nat)
    requires i < |lines|
    ensures forall field :: Lookup(lines[..i + 1], field) ==
                            if Sets(lines[i], field) then Some(ValueIn(lines[i])) else Lookup(lines[..i], field)
  {
    hide Sets;
    assert lines[..i + 1][..i] == lines[..i];
  }

  lemma {:induction false} LookupIsLast(lines: seq<string>, field: string)
    ensures Lookup(lines, field).Some? <==> exists i :: 0 <= i < |lines| && Sets(lines[i], field)
    ensures forall i :: 0 <= i < |lines| && Sets(lines[i], field)
                        && (forall j :: i < j < |lines| ==> !Sets(lines[j], field)) ==>
              Lookup(lines, field) == Some(ValueIn(lines[i]))
  {
    if lines != [] {
      var n := |lines| - 1;
      LookupIsLast(lines[..n], field);
      if !Sets(lines[n], field) {
        forall i | 0 <= i < n
          ensures lines[..n][i] == lines[i]
        {
        }
      }
    }
  }

  /** `parse_app_info(app_pkg)["Package"]`, given the control data that opkg reports. */
  method ParsePackageName(control: string) returns (o: Outcome, name: string)
    ensures o in {Ok, Raise(ValueError), Raise(AppIdError)}
    ensures o == Raise(ValueError) <==> exists line :: line in SplitOn(control, '\n') && Malformed(line)
    ensures o == Ok ==> Lookup(SplitOn(control, '\n'), "Package") == Some(name)
    ensures o == Raise(AppIdError) ==> Lookup(SplitOn(control, '\n'), "Package") == None
  {
    hide Lookup, SplitOn, LStrip, RStrip;
    NothingSet();
    var info: map<string, string> := map[];
    var lines := SplitOn(control, '\n');
    name := "";
    for i := 0 to |lines|
      invariant forall j :: 0 <= j < i ==> !Malformed(lines[j])
      invariant forall field :: Lookup(lines[..i], field) == if field in info then Some(info[field]) else None
    {
      LookupSnoc(lines, i);
      var fieldAndValue := SplitOn(lines[i], ':');
      if |fieldAndValue| != 1 {
        if |fieldAndValue| != 2 {
          assert Malformed(lines[i]);
          return Raise(ValueError), name;
        }
        info := info[RStrip(fieldAndValue[0]) := LStrip(fieldAndValue[1])];
        assert Sets(lines[i], RStrip(fieldAndValue[0])) && ValueIn(lines[i]) == LStrip(fieldAndValue[1]);
      }
      assert forall field :: Sets(lines[i], field) ==> field in info && info[field] == ValueIn(lines[i]);
    }
    assert lines[..|lines|] == lines;
    if "Package" !in info {
      return Raise(AppIdError), name;
    }
    return Ok, info["Package"];
  }

  lemma FirstPiece(a: string, rest: seq<string>)
    requires a != ""
    ensures [[a[0]] + ([a[1..]] + rest)[0]] + ([a[1..]] + rest)[1..] == [a] + rest
    ensures [[a[0]] + [a[1..]][0]] + [a[1..]][1..] == [a]
  {
    assert ([a[1..]] + rest)[1..] == rest && [a[0]] + a[1..] == a;
  }

  lemma {:induction false} SplitAt(a: string, b: string, separator: char)
    requires separator !in a
    ensures SplitOn(a + [separator] + b, separator) == [a] + SplitOn(b, separator)
    ensures SplitOn(a, separator) == [a]
  {
    var s := a + [separator] + b;
    if a == "" {
      assert s[1..] == b;
    } else {
      SplitAt(a[1..], b, separator);
      assert s[1..] == a[1..] + [separator] + b;
      FirstPiece(a, SplitOn(b, separator));
    }
  }

  /** A control file with one line, `field: value`. */
  lemma OneLine(field: string, value: string, line: string)
    requires line == field + [':'] + ([' '] + value) && '\n' !in line
    requires ':' !in field && field != "" && !IsSpace(field[|field| - 1])
    requires ':' !in value && value != "" && !IsSpace(value[0])
    ensures SplitOn(line, '\n') == [line] && !Malformed(line)
    ensures Lookup([line], field) == Some(value)
  {
    hide SplitOn;
    SplitAt(line, "", '\n');
    SplitAt(field, [' '] + value, ':');
    SplitAt([' '] + value, "", ':');
    assert SplitOn(line, ':') == [field, [' '] + value];
    assert LStrip([' '] + value) == value by {
      assert ([' '] + value)[1..] == value;
    }
    assert RStrip(field) == field;
    hide LStrip, RStrip;
    assert ValueIn(line) == value;
    assert [line][|[line]| - 1] == line;
  }

  lemma TwoColons(a: string, b: string, c: string, line: string)
    requires line == a + [':'] + (b + [':'] + c) && ':' !in a && ':' !in b
    ensures Malformed(line)
  {
    SplitAt(a, b + [':'] + c, ':');
    SplitAt(b, c, ':');
  }

  lemma FirstLine(line: string, rest: string, text: string)
    requires text == line + ['\n'] + rest && '\n' !in line
    ensures line in SplitOn(text, '\n')
  {
    SplitAt(line, rest, '\n');
  }
}
