/** How the root file system handler finds the partition of the other bank: C strings are
    character sequences without the terminating NUL, buffers are arrays. */
module BankNames {
  import opened Wrappers

  type CString = s: string | '\0' !in s

  /** `str_endswith(...) == 0`. */
  predicate StrEndsWith(substr: string, fullstr: string) {
    |substr| <= |fullstr| && fullstr[|fullstr| - |substr|..] == substr
  }

  /** The delimiter does not occur. */
  predicate Free(s: string) { 'p' !in s }

  /** Length of the longest prefix made of delimiters only (or of other characters only). */
  function Prefix(s: string, delimiters: bool): (n: nat)
    ensures n <= |s|
    ensures forall i :: 0 <= i < n ==> (s[i] == 'p') == delimiters
    ensures n < |s| ==> (s[n] == 'p') != delimiters
  {
    if s == "" || (s[0] == 'p') != delimiters then 0 else 1 + Prefix(s[1..], delimiters)
  }

  /** The first `strtok(s, "p")`: leading delimiters are skipped; None is NULL. */
  function Token(s: string): Option<string> {
    var rest := s[Prefix(s, true)..];
    if rest == "" then None else Some(rest[..Prefix(rest, false)])
  }

  /** The path that `find_target_partition` computes, the buffer size aside. */
  function Target(mounted: CString, part1: CString, part2: CString): Option<CString> {
    match Token(mounted)
    case None => None
    case Some(token) =>
      if StrEndsWith(part1, mounted) then Some(token + "p" + part2)
      else if StrEndsWith(part2, mounted) then Some(token + "p" + part1)
      else None
  }

  /** The C string that a buffer holds. */
  function Text(buffer: seq<char>): CString {
    if buffer == [] || buffer[0] == '\0' then "" else [buffer[0]] + Text(buffer[1..])
  }

  lemma {:induction false} TextUpToNul(text: CString, rest: seq<char>)
    ensures Text(text + ['\0'] + rest) == text
  {
    if text != "" {
      TextUpToNul(text[1..], rest);
      assert (text + ['\0'] + rest)[1..] == text[1..] + ['\0'] + rest;
    }
  }

  /** `snprintf(dst, size, "%s", s)`: returns the untruncated length. */
  method Snprintf(dst: array<char>, s: CString) returns (written: nat)
    modifies dst
    ensures written == |s|
    ensures |s| < dst.Length ==> Text(dst[..]) == s
    ensures dst.Length > 0 ==>
              var n := if |s| < dst.Length then |s| else dst.Length - 1;
              dst[..n] == s[..n] && dst[n] == '\0' && dst[n + 1..] == old(dst[n + 1..])
  {
    written := |s|;
    if dst.Length > 0 {
      var n := if |s| < dst.Length then |s| else dst.Length - 1;
      for i := 0 to n
        invariant dst[..i] == s[..i] && dst[n + 1..] == old(dst[n + 1..])
      {
        dst[i] := s[i];
        assert dst[..i + 1] == dst[..i] + [s[i]];
      }
      dst[n] := '\0';
      if |s| < dst.Length {
        TextUpToNul(s, dst[n + 1..]);
        assert dst[..] == s + ['\0'] + dst[n + 1..];
      }
    }
  }

  /** `find_target_partition`: succeeds exactly if there is a target and it fits. */
  method FindTargetPartition(dst: array<char>, mounted: CString, part1: CString, part2: CString)
    returns (ok: bool)
    modifies dst
    ensures ok <==> Target(mounted, part1, part2).Some? && |Target(mounted, part1, part2).value| < dst.Length
    ensures ok ==> Text(dst[..]) == Target(mounted, part1, part2).value
    ensures Target(mounted, part1, part2) == None ==> dst[..] == old(dst[..])
  {
    var token := Token(mounted);
    if token == None {
      return false;
    }
    if StrEndsWith(part1, mounted) {
      var written := Snprintf(dst, token.value + "p" + part2);
      return written < dst.Length;
    } else if StrEndsWith(part2, mounted) {
      var written := Snprintf(dst, token.value + "p" + part1);
      return written < dst.Length;
    }
    return false;
  }

  lemma PrefixIs(s: string, delimiters: bool, n: nat)
    requires n <= |s| && (forall i :: 0 <= i < n ==> (s[i] == 'p') == delimiters)
    requires n < |s| ==> (s[n] == 'p') != delimiters
    ensures Prefix(s, delimiters) == n
  {
    var m := Prefix(s, delimiters);
    assert m < |s| ==> (s[m] == 'p') != delimiters;
  }

  lemma TokenIsFree(s: string)
    ensures Token(s).Some? ==> Free(Token(s).value) && Token(s).value != ""
  {
  }

  lemma TokenOfPartition(disk: string, rest: string)
    requires disk != "" && Free(disk)
    ensures Token(disk + "p" + rest) == Some(disk)
  {
    var s := disk + "p" + rest;
    PrefixIs(s, true, 0);
    assert s[0..] == s;
    PrefixIs(s, false, |disk|);
    assert s[..|disk|] == disk;
  }

  /** A name without the delimiter ends a partition path exactly if it ends its number. */
  lemma EndsPartition(part: string, disk: string, number: string)
    requires Free(part)
    ensures StrEndsWith(part, disk + "p" + number) <==> StrEndsWith(part, number)
  {
    var s := disk + "p" + number;
    if |part| <= |number| {
      assert s[|s| - |part|..] == number[|number| - |part|..];
    } else if |part| <= |s| {
      var end := s[|s| - |part|..];
      assert end[|part| - |number| - 1] == 'p';
      assert end != part;
    }
  }

  lemma SamePrefix(a: string, b: string, rest: string)
    ensures a + rest == b + rest <==> a == b
  {
    if |a| == |b| {
      assert (a + rest)[..|a|] == a && (b + rest)[..|b|] == b;
    }
  }

  /** Mounted on bank 1, the target is the path of bank 2 exactly if the disk name does not
      contain the delimiter; otherwise it is the path of some other device. */
  lemma TargetOfBank1(disk: CString, part1: CString, part2: CString)
    requires disk != ""
    ensures Target(disk + "p" + part1, part1, part2) == Some(disk + "p" + part2) <==> Free(disk)
  {
    var s := disk + "p" + part1;
    assert s[|s| - |part1|..] == part1;
    TokenIsFree(s);
    if Free(disk) {
      TokenOfPartition(disk, part1);
    }
    if Token(s).Some? {
      SamePrefix(Token(s).value, disk, "p" + part2);
      assert Token(s).value + "p" + part2 == Token(s).value + ("p" + part2);
      assert disk + "p" + part2 == disk + ("p" + part2);
    }
  }

  /** Mounted on bank 2, the target is the path of bank 1 exactly if the number of bank 1 is
      not a proper suffix of the number of bank 2; otherwise the target is the mounted
      partition itself. */
  lemma TargetOfBank2(disk: CString, part1: CString, part2: CString)
    requires disk != "" && Free(disk) && Free(part1) && part1 != part2
    ensures Target(disk + "p" + part2, part1, part2) ==
            Some(disk + "p" + (if StrEndsWith(part1, part2) then part2 else part1))
  {
    var s := disk + "p" + part2;
    TokenOfPartition(disk, part2);
    EndsPartition(part1, disk, part2);
    assert s[|s| - |part2|..] == part2;
  }

  /** The naming that the two banks need. */
  ghost predicate WellNamed(disk: string, part1: string, part2: string) {
    && disk != "" && Free(disk) && Free(part1) && Free(part2)
    && !StrEndsWith(part1, part2) && !StrEndsWith(part2, part1)
  }

  /** For well named banks the target is the other bank, so that finding the target twice
      leads back, and the suffix test that follows tells the two targets apart. */
  lemma TargetIsInvolution(disk: CString, part1: CString, part2: CString)
    requires WellNamed(disk, part1, part2)
    ensures var p1, p2 := disk + "p" + part1, disk + "p" + part2;
            && Target(p1, part1, part2) == Some(p2) && Target(p2, part1, part2) == Some(p1)
            && StrEndsWith(part2, p2) && !StrEndsWith(part2, p1)
            && p1 != p2
  {
    TargetOfBank1(disk, part1, part2);
    assert part1 != part2 by { assert part1[0..] == part1; }
    TargetOfBank2(disk, part1, part2);
    EndsPartition(part2, disk, part1);
    var p2 := disk + "p" + part2;
    assert p2[|p2| - |part2|..] == part2;
  }

  /** What the handler needs of the names: the target is the other bank, whichever is
      mounted, and the suffix test that follows tells the two targets apart. */
  predicate BanksWork(disk: CString, part1: CString, part2: CString) {
    var p1, p2 := disk + "p" + part1, disk + "p" + part2;
    && Target(p1, part1, part2) == Some(p2) && Target(p2, part1, part2) == Some(p1)
    && StrEndsWith(part2, p2) && !StrEndsWith(part2, p1)
  }

  /** The naming condition is exact. */
  lemma NamingIsExact(disk: CString, part1: CString, part2: CString)
    requires disk != "" && Free(part1) && Free(part2)
    ensures BanksWork(disk, part1, part2) <==> WellNamed(disk, part1, part2)
  {
    TargetOfBank1(disk, part1, part2);
    EndsPartition(part2, disk, part1);
    if WellNamed(disk, part1, part2) {
      TargetIsInvolution(disk, part1, part2);
    } else if Free(disk) && !StrEndsWith(part2, part1) {
      assert part1 != part2 by { assert part1[0..] == part1; }
      TargetOfBank2(disk, part1, part2);
      SameNumber(disk, part1, part2);
    }
  }

  lemma SameNumber(disk: string, part1: string, part2: string)
    ensures disk + "p" + part1 == disk + "p" + part2 <==> part1 == part2
  {
    assert (disk + "p" + part1)[|disk| + 1..] == part1;
    assert (disk + "p" + part2)[|disk| + 1..] == part2;
  }

  /** If the disk name contains the delimiter, the target is no bank at all. */
  lemma StrayTarget(disk: CString, part1: CString, part2: CString, mounted: CString)
    requires !Free(disk) && Free(part1) && Free(part2)
    ensures Target(mounted, part1, part2) !in {Some(disk + "p" + part1), Some(disk + "p" + part2)}
  {
    TokenIsFree(mounted);
    if Token(mounted).Some? {
      var i :| 0 <= i < |disk| && disk[i] == 'p';
      OneDelimiter(Token(mounted).value, part1, disk, part1, i);
      OneDelimiter(Token(mounted).value, part1, disk, part2, i);
      OneDelimiter(Token(mounted).value, part2, disk, part1, i);
      OneDelimiter(Token(mounted).value, part2, disk, part2, i);
    }
  }

  lemma OneDelimiter(token: string, part: string, disk: string, number: string, i: nat)
    requires Free(token) && Free(part) && i < |disk| && disk[i] == 'p'
    ensures token + "p" + part != disk + "p" + number
  {
    var s, t := token + "p" + part, disk + "p" + number;
    assert t[i] == 'p' && t[|disk|] == 'p';
    assert forall k :: 0 <= k < |s| && s[k] == 'p' ==> k == |token|;
  }

  // ------------------------------------------------------------- string functions

  lemma EndsWithIsSuffix(substr: string, fullstr: string)
    ensures StrEndsWith(substr, fullstr) <==> exists start :: fullstr == start + substr
  {
    if StrEndsWith(substr, fullstr) {
      assert fullstr == fullstr[..|fullstr| - |substr|] + substr;
    }
    forall start | fullstr == start + substr ensures StrEndsWith(substr, fullstr) {
      assert fullstr[|start|..] == substr;
    }
  }

  /** `strtok`: leading delimiters are skipped, and the token goes up to the next one. */
  lemma TokenIsFirst(s: string, token: string, rest: string)
    ensures Token("p" + s) == Token(s) && Token("") == None
    ensures token != "" && Free(token) ==> Token(token) == Some(token) && Token(token + "p" + rest) == Some(token)
  {
    var n := Prefix(s, true);
    PrefixIs("p" + s, true, n + 1);
    assert ("p" + s)[n + 1..] == s[n..];
    if token != "" && Free(token) {
      TokenOfPartition(token, rest);
      PrefixIs(token, true, 0);
      assert token[0..] == token;
      PrefixIs(token, false, |token|);
      assert token[..|token|] == token;
    }
  }
}
