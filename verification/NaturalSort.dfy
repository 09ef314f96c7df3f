/** The natural sort that decides which installed version is "current" and which
    version number is allocated next.

    A path is split into alternating text and digit pieces; the digit pieces are
    compared as numbers.  Python compares the resulting lists element by element and
    raises `TypeError` when a number meets a text, so that outcome is a value here. */
module NaturalSort {

  predicate IsDigit(c: char) { '0' <= c <= '9' }

  predicate DigitFree(s: string) { forall i :: 0 <= i < |s| ==> !IsDigit(s[i]) }

  predicate AllDigits(s: string) { s != "" && forall i :: 0 <= i < |s| ==> IsDigit(s[i]) }

  // ---------------------------------------------------------------- splitting

  /** End of the longest stretch from `i` on made of digits only (or of non-digits only). */
  function Span(s: string, i: nat, digits: bool): (n: nat)
    requires i <= |s|
    ensures i <= n <= |s|
    ensures forall k :: i <= k < n ==> IsDigit(s[k]) == digits
    ensures n < |s| ==> IsDigit(s[n]) != digits
    decreases |s| - i
  {
    if i == |s| || IsDigit(s[i]) != digits then i else Span(s, i + 1, digits)
  }

  /** `re.split("([0-9]+)", s)`: the text pieces together with the separators. */
  function Split(s: string): seq<string>
    decreases |s|
  {
    var i := Span(s, 0, false);
    if i == |s| then [s]
    else
      var j := Span(s, i, true);
      [s[..i], s[i..j]] + Split(s[j..])
  }

  function Concat(p: seq<string>): string {
    if p == [] then "" else p[0] + Concat(p[1..])
  }

  /** Text pieces at even positions, digit pieces at odd ones, text at both ends, and
      only the two end pieces may be empty. */
  ghost predicate Alternates(p: seq<string>)
    decreases |p|
  {
    && p != []
    && DigitFree(p[0])
    && (|p| > 1 ==> |p| > 2 && AllDigits(p[1]) && (|p| > 3 ==> p[2] != "") && Alternates(p[2..]))
  }

  lemma AlternatesCons(a: string, b: string, p: seq<string>)
    requires DigitFree(a) && AllDigits(b) && Alternates(p) && (|p| > 1 ==> p[0] != "")
    ensures Alternates([a, b] + p)
  {
    var q := [a, b] + p;
    assert q[2..] == p && q[0] == a && q[1] == b && q[2] == p[0];
  }

  lemma ConcatCons(a: string, b: string, p: seq<string>)
    ensures Concat([a, b] + p) == a + b + Concat(p)
  {
    assert ([a, b] + p)[1..] == [b] + p && ([b] + p)[1..] == p;
    assert a + (b + Concat(p)) == a + b + Concat(p);
  }

  lemma SplitStep(s: string) returns (a: string, b: string, rest: string)
    requires Span(s, 0, false) < |s|
    ensures s == a + b + rest && DigitFree(a) && AllDigits(b)
    ensures rest != "" ==> !IsDigit(rest[0])
    ensures Split(s) == [a, b] + Split(rest)
    ensures a == "" <==> IsDigit(s[0])
  {
    var i := Span(s, 0, false);
    var j := Span(s, i, true);
    a, b, rest := s[..i], s[i..j], s[j..];
  }

  /** Splitting yields an alternating sequence and loses no character.  Its first piece
      is empty exactly when the string starts with a digit (or is empty). */
  lemma {:induction false} SplitAlternates(s: string)
    ensures Alternates(Split(s)) && Concat(Split(s)) == s
    ensures Split(s)[0] == "" <==> s == "" || IsDigit(s[0])
    decreases |s|
  {
    if Span(s, 0, false) < |s| {
      var a, b, rest := SplitStep(s);
      SplitAlternates(rest);
      assert rest == "" ==> Split(rest) == [""];
      AlternatesCons(a, b, Split(rest));
      ConcatCons(a, b, Split(rest));
    } else {
      assert Concat([s]) == s + Concat([]);
    }
  }

  /** The pieces are the only alternating decomposition of the string: `Split` is
      pinned down by its specification. */
  lemma {:induction false} SplitExact(s: string, p: seq<string>)
    ensures p == Split(s) <==> Alternates(p) && Concat(p) == s
    decreases |p|
  {
    SplitAlternates(s);
    if Alternates(p) && Concat(p) == s {
      if |p| == 1 {
        assert s == p[0] + Concat(p[1..]) == p[0];
        SpanIs(s, 0, false, |s|);
      } else {
        var rest := Concat(p[2..]);
        assert p == [p[0], p[1]] + p[2..];
        ConcatCons(p[0], p[1], p[2..]);
        SplitExact(rest, p[2..]);
        SplitAlternates(rest);
        assert |p| == 3 ==> rest == p[2] + Concat(p[2..][1..]) == p[2];
        hide Alternates, Concat;
        SplitHead(s, p[0], p[1], rest);
      }
    }
  }

  lemma SplitHead(s: string, a: string, b: string, rest: string)
    requires s == a + b + rest && DigitFree(a) && AllDigits(b) && (rest != "" ==> !IsDigit(rest[0]))
    ensures Split(s) == [a, b] + Split(rest)
  {
    var i, j := |a|, |a| + |b|;
    assert s[..i] == a && s[i..j] == b && s[j..] == rest;
    assert s[i] == b[0];
    SpanIs(s, 0, false, i);
    SpanIs(s, i, true, j);
  }

  lemma SpanIs(s: string, i: nat, digits: bool, n: nat)
    requires i <= n <= |s| && (forall k :: i <= k < n ==> IsDigit(s[k]) == digits)
    requires n < |s| ==> IsDigit(s[n]) != digits
    ensures Span(s, i, digits) == n
  {
    var r := Span(s, i, digits);
    assert r < |s| ==> IsDigit(s[r]) != digits;
  }

  // --------------------------------------------------------------------- keys

  datatype Piece = Text(text: string) | Num(value: nat)

  function Digit(c: char): (d: nat)
    requires IsDigit(c)
    ensures d < 10
  {
    c as int - '0' as int
  }

  /** Python's `int(text)` on a non-empty string of ASCII digits. */
  function ToNat(s: string): nat
    requires forall i :: 0 <= i < |s| ==> IsDigit(s[i])
  {
    if s == "" then 0 else ToNat(s[..|s| - 1]) * 10 + Digit(s[|s| - 1])
  }

  function Convert(s: string): Piece {
    if AllDigits(s) then Num(ToNat(s)) else Text(s)
  }

  function ConvertAll(p: seq<string>): (k: seq<Piece>)
    ensures |k| == |p| && forall i :: 0 <= i < |p| ==> k[i] == Convert(p[i])
  {
    if p == [] then [] else [Convert(p[0])] + ConvertAll(p[1..])
  }

  function Key(s: string): seq<Piece> { ConvertAll(Split(s)) }

  datatype Order = Less | Equal | Greater | TypeError

  function CompareText(a: string, b: string): Order {
    if a == "" then (if b == "" then Equal else Less)
    else if b == "" then Greater
    else if a[0] < b[0] then Less
    else if b[0] < a[0] then Greater
    else CompareText(a[1..], b[1..])
  }

  function ComparePiece(a: Piece, b: Piece): Order {
    match (a, b)
    case (Text(s), Text(t)) => CompareText(s, t)
    case (Num(m), Num(n)) => if m < n then Less else if n < m then Greater else Equal
    case _ => TypeError
  }

  /** List comparison: the first pair of different elements decides, then the length. */
  function CompareKeys(a: seq<Piece>, b: seq<Piece>): Order {
    if a == [] then (if b == [] then Equal else Less)
    else if b == [] then Greater
    else if a[0] == b[0] then CompareKeys(a[1..], b[1..])
    else ComparePiece(a[0], b[0])
  }

  predicate Leq(s: string, t: string) {
    CompareKeys(Key(s), Key(t)) in {Less, Equal}
  }

  /** Even positions hold text and odd ones numbers (or the other way round). */
  ghost predicate KeyShape(k: seq<Piece>, text: bool) {
    k == [] || (k[0].Text? == text && KeyShape(k[1..], !text))
  }

  lemma {:induction false} KeyHasShape(p: seq<string>)
    requires Alternates(p)
    ensures KeyShape(ConvertAll(p), true)
    decreases |p|
  {
    if |p| > 1 {
      KeyHasShape(p[2..]);
      assert ConvertAll(p)[1..][1..] == ConvertAll(p[2..]);
    }
  }

  /** No comparison the sort can make ever mixes a number with a text. */
  lemma NeverTypeError(s: string, t: string)
    ensures CompareKeys(Key(s), Key(t)) != TypeError
  {
    SplitAlternates(s);
    SplitAlternates(t);
    KeyHasShape(Split(s));
    KeyHasShape(Split(t));
    ShapedNeverTypeError(Key(s), Key(t), true);
  }

  lemma {:induction false} ShapedNeverTypeError(a: seq<Piece>, b: seq<Piece>, text: bool)
    requires KeyShape(a, text) && KeyShape(b, text)
    ensures CompareKeys(a, b) != TypeError
  {
    if a != [] && b != [] {
      if a[0] == b[0] {
        ShapedNeverTypeError(a[1..], b[1..], !text);
      } else if text {
        TextOrder(a[0].text, b[0].text);
      }
    }
  }

  function Flip(o: Order): Order {
    match o case Less => Greater case Greater => Less case _ => o
  }

  lemma {:induction false} TextOrder(a: string, b: string)
    ensures CompareText(a, b) != TypeError
    ensures CompareText(b, a) == Flip(CompareText(a, b))
    ensures CompareText(a, b) == Equal <==> a == b
  {
    if a != "" && b != "" {
      TextOrder(a[1..], b[1..]);
      if a[0] == b[0] && a[1..] == b[1..] { assert a == [a[0]] + a[1..] == b; }
    }
  }

  lemma {:induction false} TextTransitive(a: string, b: string, c: string)
    requires CompareText(a, b) == Less && CompareText(b, c) == Less
    ensures CompareText(a, c) == Less
  {
    if a != "" && b != "" && c != "" && a[0] == b[0] == c[0] {
      TextTransitive(a[1..], b[1..], c[1..]);
    }
  }

  lemma {:induction false} KeyOrder(a: seq<Piece>, b: seq<Piece>)
    ensures CompareKeys(b, a) == Flip(CompareKeys(a, b))
    ensures CompareKeys(a, b) == Equal <==> a == b
  {
    if a != [] && b != [] {
      if a[0] == b[0] {
        KeyOrder(a[1..], b[1..]);
        if a[1..] == b[1..] { assert a == [a[0]] + a[1..] == b; }
      } else if a[0].Text? && b[0].Text? {
        TextOrder(a[0].text, b[0].text);
      }
    }
  }

  lemma {:induction false} KeyTransitive(a: seq<Piece>, b: seq<Piece>, c: seq<Piece>, text: bool)
    requires KeyShape(a, text) && KeyShape(b, text) && KeyShape(c, text)
    requires CompareKeys(a, b) == Less && CompareKeys(b, c) == Less
    ensures CompareKeys(a, c) == Less
  {
    if a != [] && b != [] && c != [] {
      if a[0] == b[0] == c[0] {
        KeyTransitive(a[1..], b[1..], c[1..], !text);
      } else if text && a[0] != b[0] && b[0] != c[0] {
        TextTransitive(a[0].text, b[0].text, c[0].text);
        TextOrder(a[0].text, c[0].text);
      }
    }
  }

  /** `Leq` is a total preorder whose equivalence is equality of keys. */
  lemma LeqIsTotalPreorder(s: string, t: string, u: string)
    ensures Leq(s, t) || Leq(t, s)
    ensures Leq(s, t) && Leq(t, u) ==> Leq(s, u)
    ensures Leq(s, t) && Leq(t, s) <==> Key(s) == Key(t)
  {
    NeverTypeError(s, t);
    KeyOrder(Key(s), Key(t));
    KeyOrder(Key(t), Key(u));
    KeyOrder(Key(s), Key(u));
    if CompareKeys(Key(s), Key(t)) == Less && CompareKeys(Key(t), Key(u)) == Less {
      SplitAlternates(s);
      SplitAlternates(t);
      SplitAlternates(u);
      KeyHasShape(Split(s));
      KeyHasShape(Split(t));
      KeyHasShape(Split(u));
      KeyTransitive(Key(s), Key(t), Key(u), true);
    }
  }

  // ------------------------------------------------------------------ sorting

  ghost predicate SortedPaths(l: seq<string>) {
    forall i, j :: 0 <= i < j < |l| ==> Leq(l[i], l[j])
  }

  function WithKey(l: seq<string>, k: seq<Piece>): seq<string> {
    if l == [] then []
    else (if Key(l[0]) == k then [l[0]] else []) + WithKey(l[1..], k)
  }

  /** The result of `l.sort(key=alphanum_key)`: Python's sort is stable. */
  function Sorted(l: seq<string>): (r: seq<string>)
    ensures multiset(r) == multiset(l)
  {
    if l == [] then [] else
      assert l == [l[0]] + l[1..];
      Insert(l[0], Sorted(l[1..]))
  }

  function Insert(x: string, l: seq<string>): (r: seq<string>)
    ensures multiset(r) == multiset{x} + multiset(l)
  {
    if l == [] || Leq(x, l[0]) then [x] + l
    else
      assert l == [l[0]] + l[1..];
      [l[0]] + Insert(x, l[1..])
  }

  /** Two lists agree, in order, on every group of elements with equal keys. */
  ghost predicate SameGroups(l: seq<string>, r: seq<string>) {
    forall k :: WithKey(r, k) == WithKey(l, k)
  }

  lemma {:induction false} InsertSorts(x: string, l: seq<string>)
    requires SortedPaths(l)
    ensures SortedPaths(Insert(x, l))
  {
    if l == [] {
    } else if Leq(x, l[0]) {
      forall i | 0 <= i < |l| ensures Leq(x, l[i]) {
        LeqIsTotalPreorder(x, l[0], l[i]);
      }
    } else {
      InsertSorts(x, l[1..]);
      LeqIsTotalPreorder(x, l[0], x);
      var r := Insert(x, l[1..]);
      forall j | 0 <= j < |r| ensures Leq(l[0], r[j]) {
        assert r[j] in multiset(r);
        if r[j] != x { assert r[j] in l[1..]; }
      }
    }
  }

  lemma {:induction false} InsertKeepsGroups(x: string, l: seq<string>, k: seq<Piece>)
    ensures WithKey(Insert(x, l), k) == (if Key(x) == k then [x] else []) + WithKey(l, k)
  {
    hide Key, Leq, WithKey;
    if l == [] || Leq(x, l[0]) {
      WithKeyOfCons(x, l, k);
    } else {
      InsertKeepsGroups(x, l[1..], k);
      LeqIsTotalPreorder(x, l[0], x);
      WithKeyOfCons(l[0], Insert(x, l[1..]), k);
      WithKeyOfCons(l[0], l[1..], k);
      assert l == [l[0]] + l[1..];
    }
  }

  lemma WithKeyOfCons(x: string, l: seq<string>, k: seq<Piece>)
    ensures WithKey([x] + l, k) == (if Key(x) == k then [x] else []) + WithKey(l, k)
  {
    hide Key;
    assert ([x] + l)[1..] == l;
  }

  lemma {:induction false} SortedSorts(l: seq<string>)
    ensures SortedPaths(Sorted(l)) && SameGroups(l, Sorted(l))
  {
    if l != [] {
      SortedSorts(l[1..]);
      var r := Sorted(l[1..]);
      InsertSorts(l[0], r);
      forall k ensures WithKey(Insert(l[0], r), k) == WithKey(l, k) {
        InsertKeepsGroups(l[0], r, k);
        assert WithKey(r, k) == WithKey(l[1..], k);
      }
    }
  }

  /** Being sorted, and keeping every group of equal keys in its order, determines the
      result: any correct stable sort returns `Sorted(l)`. */
  lemma StableSortIsUnique(l: seq<string>, r: seq<string>)
    ensures r == Sorted(l) <==> SortedPaths(r) && SameGroups(l, r)
  {
    SortedSorts(l);
    if SortedPaths(r) && SameGroups(l, r) {
      forall k ensures WithKey(Sorted(l), k) == WithKey(r, k) {
        assert WithKey(r, k) == WithKey(l, k) == WithKey(Sorted(l), k);
      }
      SameGroupsSame(r, Sorted(l));
    }
  }

  lemma TailGroups(r: seq<string>, q: seq<string>)
    requires r != [] && q != [] && r[0] == q[0] && SameGroups(r, q)
    ensures SameGroups(r[1..], q[1..])
  {
    forall k ensures WithKey(q[1..], k) == WithKey(r[1..], k) {
      assert WithKey(q, k) == WithKey(r, k);
      var h := if Key(r[0]) == k then [r[0]] else [];
      assert WithKey(r, k)[|h|..] == WithKey(r[1..], k);
      assert WithKey(q, k)[|h|..] == WithKey(q[1..], k);
    }
  }

  lemma {:induction false} SameGroupsSame(r: seq<string>, q: seq<string>)
    requires SortedPaths(r) && SortedPaths(q) && SameGroups(r, q)
    ensures r == q
  {
    if r != [] || q != [] {
      var x := if r != [] then r[0] else q[0];
      assert WithKey(q, Key(x)) == WithKey(r, Key(x)) != [];
      MemberWithKey(q, Key(r[0]), r[0], WithKey(r, Key(r[0])));
      MemberWithKey(r, Key(q[0]), q[0], WithKey(q, Key(q[0])));
      LeqIsTotalPreorder(r[0], q[0], r[0]);
      assert WithKey(r, Key(r[0]))[0] == r[0] && WithKey(q, Key(q[0]))[0] == q[0];
      TailGroups(r, q);
      SameGroupsSame(r[1..], q[1..]);
      assert r == [r[0]] + r[1..];
    }
  }

  /** A non-empty group of a sorted list starts no earlier than the head of the list. */
  lemma {:induction false} MemberWithKey(q: seq<string>, k: seq<Piece>, x: string, group: seq<string>)
    requires SortedPaths(q) && q != [] && Key(x) == k
    requires group != [] && group == WithKey(q, k)
    ensures Leq(q[0], x)
  {
    LeqIsTotalPreorder(q[0], x, q[0]);
    if Key(q[0]) != k {
      assert group == WithKey(q[1..], k);
      assert q[1..] != [];
      MemberWithKey(q[1..], k, x, group);
      LeqIsTotalPreorder(q[0], q[1], x);
    }
  }

  ghost predicate NoDuplicates(l: seq<string>) {
    forall i, j :: 0 <= i < j < |l| ==> l[i] != l[j]
  }

  lemma {:induction false} InsertNoDuplicates(x: string, l: seq<string>)
    requires NoDuplicates(l) && x !in l
    ensures NoDuplicates(Insert(x, l))
  {
    if l != [] && !Leq(x, l[0]) {
      var r := Insert(x, l[1..]);
      InsertNoDuplicates(x, l[1..]);
      forall i | 0 <= i < |r| ensures r[i] != l[0] {
        assert r[i] in multiset(r);
        assert r[i] == x || r[i] in l[1..];
      }
    }
  }

  lemma {:induction false} SortedNoDuplicates(l: seq<string>)
    requires NoDuplicates(l)
    ensures NoDuplicates(Sorted(l))
  {
    if l != [] {
      SortedNoDuplicates(l[1..]);
      assert l[0] !in Sorted(l[1..]) by {
        assert l[0] !in l[1..];
        assert l[0] !in multiset(Sorted(l[1..]));
      }
      InsertNoDuplicates(l[0], Sorted(l[1..]));
    }
  }

  /** `human_sort` / `alphanum_sort`: sort the caller's list in place. */
  method HumanSort(l: array<string>)
    modifies l
    ensures l[..] == Sorted(old(l[..]))
  {
    var r := Sorted(l[..]);
    assert |multiset(r)| == |r| && |multiset(l[..])| == l.Length;
    for i := 0 to l.Length
      invariant l[..i] == r[..i]
    {
      l[i] := r[i];
      assert l[..i + 1] == l[..i] + [l[i]];
    }
    assert l[..] == l[..l.Length];
  }

  // ------------------------------------------------------------ version paths

  /** `str(n)`. */
  function Decimal(n: nat): (s: string)
    ensures AllDigits(s) && ToNat(s) == n
  {
    var d := ('0' as int + n % 10) as char;
    if n < 10 then
      assert ToNat([d][..0]) == 0;
      [d]
    else
      var s := Decimal(n / 10) + [d];
      assert s[..|s| - 1] == Decimal(n / 10);
      s
  }

  /** `parent + "/"` followed by a decimal number, leading zeros allowed. */
  ghost predicate IsVersionPath(parent: string, path: string) {
    && |parent| + 1 < |path|
    && path[..|parent| + 1] == parent + "/"
    && AllDigits(path[|parent| + 1..])
  }

  /** `os.path.basename`: what follows the last slash. */
  function BaseName(path: string): string {
    if path == "" || path[|path| - 1] == '/' then ""
    else BaseName(path[..|path| - 1]) + [path[|path| - 1]]
  }

  function VersionOf(path: string): nat {
    var b := BaseName(path);
    if AllDigits(b) then ToNat(b) else 0
  }

  lemma {:induction false} BaseNameOfJoin(dir: string, name: string)
    requires '/' !in name
    ensures BaseName(dir + "/" + name) == name
    decreases |name|
  {
    var p := dir + "/" + name;
    if name != "" {
      var n := name[..|name| - 1];
      assert p[..|p| - 1] == dir + "/" + n;
      BaseNameOfJoin(dir, n);
      assert name == n + [p[|p| - 1]];
    }
  }

  lemma BaseNameOfVersionPath(parent: string, path: string)
    requires IsVersionPath(parent, path)
    ensures AllDigits(BaseName(path)) && path == parent + "/" + BaseName(path)
  {
    var ds := path[|parent| + 1..];
    assert path == parent + "/" + ds;
    BaseNameOfJoin(parent, ds);
  }

  lemma VersionOfJoin(parent: string, n: nat)
    ensures IsVersionPath(parent, parent + "/" + Decimal(n))
    ensures VersionOf(parent + "/" + Decimal(n)) == n
  {
    var path := parent + "/" + Decimal(n);
    assert path[|parent| + 1..] == Decimal(n);
    BaseNameOfVersionPath(parent, path);
    BaseNameOfJoin(parent, Decimal(n));
  }

  lemma {:induction false} SplitOfVersionPath(p: string, ds: string)
    requires p != "" && !IsDigit(p[|p| - 1]) && AllDigits(ds)
    ensures Split(p + ds) == Split(p) + [ds, ""]
  {
    SplitAlternates(p);
    ExtendAlternates(Split(p), ds);
    SplitExact(p + ds, Split(p) + [ds, ""]);
  }

  lemma {:induction false} ExtendAlternates(p: seq<string>, ds: string)
    requires Alternates(p) && Concat(p) != "" && !IsDigit(Concat(p)[|Concat(p)| - 1]) && AllDigits(ds)
    ensures Alternates(p + [ds, ""]) && Concat(p + [ds, ""]) == Concat(p) + ds
    decreases |p|
  {
    var q := p + [ds, ""];
    if |p| == 1 {
      assert Concat(p) == p[0] + Concat(p[1..]) == p[0];
      assert q[1..] == [ds, ""] && q[1..][1..] == [""] && q[2..] == [""];
      assert Concat([""]) == "" + Concat([]);
    } else {
      var rest := Concat(p[2..]);
      assert p[1..][1..] == p[2..];
      assert Concat(p) == p[0] + (p[1] + rest);
      assert rest != "";
      assert Concat(p)[|Concat(p)| - 1] == rest[|rest| - 1];
      ExtendAlternates(p[2..], ds);
      assert q[2..] == p[2..] + [ds, ""] && q[1..][1..] == q[2..];
      if |p| == 3 { assert rest == p[2] + Concat(p[2..][1..]) == p[2]; }
    }
  }

  lemma {:induction false} CommonPrefix(k: seq<Piece>, a: seq<Piece>, b: seq<Piece>)
    ensures CompareKeys(k + a, k + b) == CompareKeys(a, b)
  {
    if k == [] {
      assert k + a == a && k + b == b;
    } else {
      CommonPrefix(k[1..], a, b);
      assert (k + a)[1..] == k[1..] + a && (k + b)[1..] == k[1..] + b;
    }
  }

  lemma KeyOfVersionPath(parent: string, path: string)
    requires IsVersionPath(parent, path)
    ensures Key(path) == ConvertAll(Split(parent + "/")) + [Num(VersionOf(path)), Text("")]
  {
    BaseNameOfVersionPath(parent, path);
    var p := parent + "/";
    var ds := BaseName(path);
    SplitOfVersionPath(p, ds);
    assert Key(path) == ConvertAll(Split(p) + [ds, ""]);
    assert Convert(ds) == Num(VersionOf(path)) && Convert("") == Text("");
  }

  lemma CompareLast(k: seq<Piece>, m: nat, n: nat)
    ensures CompareKeys(k + [Num(m), Text("")], k + [Num(n), Text("")]) in {Less, Equal} <==> m <= n
  {
    var a, b := [Num(m), Text("")], [Num(n), Text("")];
    CommonPrefix(k, a, b);
    KeyOrder(a, b);
  }

  /** Below a common parent, whatever digits the parent's own name contains, the sort
      orders version directories by the numeric value of their names. */
  lemma VersionsSortNumerically(parent: string, s: string, t: string)
    requires IsVersionPath(parent, s) && IsVersionPath(parent, t)
    ensures Leq(s, t) <==> VersionOf(s) <= VersionOf(t)
  {
    KeyOfVersionPath(parent, s);
    KeyOfVersionPath(parent, t);
    CompareLast(ConvertAll(Split(parent + "/")), VersionOf(s), VersionOf(t));
  }

  ghost predicate AllVersionPaths(parent: string, bundles: seq<string>) {
    forall b :: b in bundles ==> IsVersionPath(parent, b)
  }

  /** The sorted list of version paths is ascending in the version numbers. */
  lemma SortedVersionsAscend(parent: string, bundles: seq<string>)
    requires AllVersionPaths(parent, bundles)
    ensures |Sorted(bundles)| == |bundles|
    ensures forall b :: b in Sorted(bundles) <==> b in bundles
    ensures forall i, j :: 0 <= i < j < |bundles| ==>
              VersionOf(Sorted(bundles)[i]) <= VersionOf(Sorted(bundles)[j])
  {
    var l := Sorted(bundles);
    SortedSorts(bundles);
    assert |multiset(l)| == |l|;
    assert forall b :: b in l <==> b in multiset(l);
    assert forall b :: b in bundles <==> b in multiset(bundles);
    forall i, j | 0 <= i < j < |l| ensures VersionOf(l[i]) <= VersionOf(l[j]) {
      VersionsSortNumerically(parent, l[i], l[j]);
    }
  }

  lemma EndsOfSortedVersions(parent: string, bundles: seq<string>)
    requires bundles != [] && AllVersionPaths(parent, bundles)
    ensures |Sorted(bundles)| == |bundles|
    ensures Sorted(bundles)[0] in bundles && Sorted(bundles)[|bundles| - 1] in bundles
    ensures forall b :: b in bundles ==>
              VersionOf(Sorted(bundles)[0]) <= VersionOf(b) <= VersionOf(Sorted(bundles)[|bundles| - 1])
  {
    SortedVersionsAscend(parent, bundles);
    forall b | b in bundles
      ensures VersionOf(Sorted(bundles)[0]) <= VersionOf(b) <= VersionOf(Sorted(bundles)[|bundles| - 1])
    {
      assert b in Sorted(bundles);
    }
  }

  /** The path arithmetic of `_get_app_bundle_paths` for an app that has bundles: the
      first path of the sorted list is the current one, and one more than the last
      version names the next one. */
  method CurrentAndNextPath(parent: string, bundles: seq<string>) returns (current: string, next: string)
    requires bundles != [] && AllVersionPaths(parent, bundles)
    ensures current in bundles && forall b :: b in bundles ==> VersionOf(current) <= VersionOf(b)
    ensures exists last :: last in bundles && VersionOf(next) == VersionOf(last) + 1
    ensures forall b :: b in bundles ==> VersionOf(b) < VersionOf(next)
    ensures next == parent + "/" + Decimal(VersionOf(next)) && next !in bundles
  {
    var l := SortedCopy(bundles);
    EndsOfSortedVersions(parent, bundles);
    current := l[0];
    var latest := VersionOf(l[|l| - 1]);
    next := parent + "/" + Decimal(latest + 1);
    VersionOfJoin(parent, latest + 1);
  }

  /** A list of paths handed to `HumanSort` and read back. */
  method SortedCopy(paths: seq<string>) returns (sorted: seq<string>)
    ensures sorted == Sorted(paths)
  {
    var l := new string[|paths|](i requires 0 <= i < |paths| => paths[i]);
    assert l[..] == paths;
    HumanSort(l);
    sorted := l[..];
  }
}
