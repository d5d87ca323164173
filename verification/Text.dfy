/** Strings: trimming, splitting and joining, as the standard libraries of the modelled programs do it. */
module Text {

  datatype Option<+T> = None | Some(value: T)

  /** White space as Go's `unicode.IsSpace` has it. */
  predicate GoSpace(c: char) {
    var n := c as int;
    0x09 <= n <= 0x0d || n == 0x20 || n == 0x85 || n == 0xa0 || n == 0x1680 || 0x2000 <= n <= 0x200a ||
    n == 0x2028 || n == 0x2029 || n == 0x202f || n == 0x205f || n == 0x3000
  }

  /** White space as Python's `str.isspace` has it: also the four information separators. */
  predicate PythonSpace(c: char) {
    GoSpace(c) || 0x1c <= c as int <= 0x1f
  }

  function TrimLeft(space: char -> bool, s: string): (r: string)
    ensures r == "" || !space(r[0])
    ensures |r| <= |s| && r == s[|s| - |r|..]
  {
    if s != "" && space(s[0]) then TrimLeft(space, s[1..]) else s
  }

  function TrimRight(space: char -> bool, s: string): (r: string)
    ensures r == "" || !space(r[|r| - 1])
    ensures r <= s
  {
    if s != "" && space(s[|s| - 1]) then TrimRight(space, s[..|s| - 1]) else s
  }

  /** Both ends. */
  function Trim(space: char -> bool, s: string): (r: string)
    ensures r != "" ==> !space(r[0]) && !space(r[|r| - 1])
  {
    var left := TrimLeft(space, s);
    var r := TrimRight(space, left);
    assert r != "" ==> r[0] == left[0];
    r
  }

  function GoTrim(s: string): string { Trim(GoSpace, s) }

  function PythonStrip(s: string): string { Trim(PythonSpace, s) }

  lemma TrimmedIsFixed(space: char -> bool, s: string)
    requires s != "" ==> !space(s[0]) && !space(s[|s| - 1])
    ensures Trim(space, s) == s
  {}

  lemma TrimTwice(space: char -> bool, s: string)
    ensures Trim(space, Trim(space, s)) == Trim(space, s)
  {
    TrimmedIsFixed(space, Trim(space, s));
  }

  lemma {:induction false} TrimLeftDropsSpace(space: char -> bool, s: string)
    ensures forall k :: 0 <= k < |s| - |TrimLeft(space, s)| ==> space(s[k])
  {
    if s != "" && space(s[0]) {
      TrimLeftDropsSpace(space, s[1..]);
      assert forall k :: 0 < k < |s| ==> s[k] == s[1..][k - 1];
    }
  }

  /** Trimming leaves nothing exactly of the strings made of spaces. */
  lemma TrimEmptyIff(space: char -> bool, s: string)
    ensures Trim(space, s) == "" <==> forall c :: c in s ==> space(c)
  {
    var left := TrimLeft(space, s);
    TrimLeftDropsSpace(space, s);
    if left != "" {
      assert left[0] in s;
      TrimRightKeepsSolid(space, left);
    }
  }

  lemma TrimHasNoNewChars(space: char -> bool, s: string, c: char)
    requires c !in s
    ensures c !in Trim(space, s)
  {
    var left := TrimLeft(space, s);
    assert forall k :: 0 <= k < |left| ==> left[k] == s[|s| - |left| + k];
  }

  lemma {:induction false} TrimRightKeepsSolid(space: char -> bool, s: string)
    requires s != "" && !space(s[0])
    ensures TrimRight(space, s) != ""
  {
    if space(s[|s| - 1]) {
      TrimRightKeepsSolid(space, s[..|s| - 1]);
    }
  }

  // ---------------------------------------------------------------- splitting on one character

  /** The pieces between the separators, as Go's `strings.Split` gives them: always at least one. */
  function Split(s: string, sep: char): (pieces: seq<string>)
    ensures |pieces| >= 1
    ensures forall i :: 0 <= i < |pieces| ==> sep !in pieces[i]
  {
    if s == "" then [""]
    else if s[0] == sep then [""] + Split(s[1..], sep)
    else
      var rest := Split(s[1..], sep);
      [[s[0]] + rest[0]] + rest[1..]
  }

  function Join(pieces: seq<string>, sep: char): string {
    if pieces == [] then ""
    else if |pieces| == 1 then pieces[0]
    else pieces[0] + [sep] + Join(pieces[1..], sep)
  }

  lemma {:induction false} JoinOfSplit(s: string, sep: char)
    ensures Join(Split(s, sep), sep) == s
  {
    if s != "" {
      JoinOfSplit(s[1..], sep);
      var rest := Split(s[1..], sep);
      assert s == [s[0]] + s[1..];
      if s[0] != sep {
        assert Split(s, sep)[1..] == rest[1..];
      } else {
        assert ([""] + rest)[1..] == rest;
      }
    }
  }

  /** Every piece stands somewhere in the text. */
  lemma {:induction false} PieceIsPart(s: string, sep: char, i: nat) returns (a: string, b: string)
    requires i < |Split(s, sep)|
    ensures s == a + Split(s, sep)[i] + b && (i == 0 ==> a == "")
  {
    a, b := "", "";
    if s != "" {
      var rest := Split(s[1..], sep);
      HeadTail(s);
      if s[0] == sep && i == 0 {
        b := s;
      } else if i == 0 {
        a, b := PieceIsPart(s[1..], sep, 0);
        Regroup([s[0]], rest[0], b);
      } else {
        var k := if s[0] == sep then i - 1 else i;
        a, b := PieceIsPart(s[1..], sep, k);
        assert Split(s, sep)[i] == rest[k];
        Regroup([s[0]], a + rest[k], b);
        Regroup([s[0]], a, rest[k]);
        a := [s[0]] + a;
      }
    }
  }

  lemma {:induction false} SplitPrefix(a: string, s: string, sep: char)
    requires sep !in a
    ensures Split(a + [sep] + s, sep) == [a] + Split(s, sep)
  {
    if a == "" {
      assert a + [sep] + s == [sep] + s;
      assert ([sep] + s)[1..] == s;
    } else {
      var t := a + [sep] + s;
      SplitPrefix(a[1..], s, sep);
      assert t[1..] == a[1..] + [sep] + s;
      assert t[0] == a[0] && a[0] in a;
      assert a == [a[0]] + a[1..];
    }
  }

  lemma {:induction false} SplitSolid(a: string, sep: char)
    requires sep !in a
    ensures Split(a, sep) == [a]
  {
    if a != "" {
      assert a[0] in a;
      SplitSolid(a[1..], sep);
      assert a == [a[0]] + a[1..];
    }
  }

  lemma {:induction false} SplitOfJoin(pieces: seq<string>, sep: char)
    requires |pieces| >= 1
    requires forall i :: 0 <= i < |pieces| ==> sep !in pieces[i]
    ensures Split(Join(pieces, sep), sep) == pieces
  {
    if |pieces| == 1 {
      SplitSolid(pieces[0], sep);
    } else {
      SplitOfJoin(pieces[1..], sep);
      SplitPrefix(pieces[0], Join(pieces[1..], sep), sep);
    }
  }

  lemma {:induction false} SplitSuffix(s: string, b: string, sep: char)
    requires sep !in b
    ensures Split(s + [sep] + b, sep) == Split(s, sep) + [b]
  {
    var t := s + [sep] + b;
    if s == "" {
      assert t == [sep] + b && t[1..] == b;
      SplitSolid(b, sep);
    } else {
      assert t[1..] == s[1..] + [sep] + b && t[0] == s[0];
      SplitSuffix(s[1..], b, sep);
    }
  }

  lemma {:induction false} JoinSnoc(pieces: seq<string>, last: string, sep: char)
    requires pieces != []
    ensures Join(pieces + [last], sep) == Join(pieces, sep) + [sep] + last
  {
    var all := pieces + [last];
    if |pieces| == 1 {
      assert all[1..] == [last];
    } else {
      assert all[1..] == pieces[1..] + [last];
      JoinSnoc(pieces[1..], last, sep);
    }
  }

  /** Splitting at one separator in the middle. */
  lemma {:induction false} SplitBoth(a: string, b: string, sep: char)
    ensures Split(a + [sep] + b, sep) == Split(a, sep) + Split(b, sep)
  {
    var t := a + [sep] + b;
    if a == "" {
      assert t == [sep] + b && t[1..] == b;
    } else {
      assert t[1..] == a[1..] + [sep] + b && t[0] == a[0];
      SplitBoth(a[1..], b, sep);
    }
  }

  lemma {:induction false} JoinBoth(a: seq<string>, b: seq<string>, sep: char)
    requires a != [] && b != []
    ensures Join(a + b, sep) == Join(a, sep) + [sep] + Join(b, sep)
  {
    if |a| == 1 {
      assert (a + b)[1..] == b;
    } else {
      assert (a + b)[1..] == a[1..] + b;
      JoinBoth(a[1..], b, sep);
    }
  }

  /** The part stands between separators or at an end. */
  ghost predicate PartOf(part: string, s: string, sep: char) {
    sep !in part &&
    ((s == part) || (exists b :: s == part + [sep] + b) || (exists a :: s == a + [sep] + part) ||
     exists a, b :: s == a + [sep] + part + [sep] + b)
  }

  /** What splitting gives: exactly the parts between separators. */
  lemma PartIff(part: string, s: string, sep: char)
    ensures part in Split(s, sep) <==> PartOf(part, s, sep)
  {
    if part in Split(s, sep) {
      PieceIsPartOf(part, s, sep);
    }
    if PartOf(part, s, sep) {
      PartIsPiece(part, s, sep);
    }
  }

  lemma PieceIsPartOf(part: string, s: string, sep: char)
    requires part in Split(s, sep)
    ensures PartOf(part, s, sep)
  {
    var pieces := Split(s, sep);
    var i :| 0 <= i < |pieces| && pieces[i] == part;
    var before, behind := pieces[..i], pieces[i + 1..];
    JoinOfSplit(s, sep);
    assert pieces == before + ([part] + behind);
    if behind != [] {
      JoinBoth([part], behind, sep);
    } else {
      assert [part] + behind == [part];
    }
    if before != [] {
      JoinBoth(before, [part] + behind, sep);
      Regroup(Join(before, sep) + [sep], part + [sep], Join(behind, sep));
      Regroup(Join(before, sep) + [sep], part, [sep]);
    } else {
      assert pieces == [part] + behind;
    }
  }

  lemma PartIsPiece(part: string, s: string, sep: char)
    requires PartOf(part, s, sep)
    ensures part in Split(s, sep)
  {
    SplitSolid(part, sep);
    if b :| s == part + [sep] + b {
      SplitPrefix(part, b, sep);
    } else if a :| s == a + [sep] + part {
      SplitSuffix(a, part, sep);
    } else if a, b :| s == a + [sep] + part + [sep] + b {
      SplitBoth(a + [sep] + part, b, sep);
      SplitSuffix(a, part, sep);
    }
  }

  // ---------------------------------------------------------------- what trimming is

  ghost predicate AllOf(space: char -> bool, s: string) {
    forall i :: 0 <= i < |s| ==> space(s[i])
  }

  lemma HeadTail(s: string)
    requires s != ""
    ensures s == [s[0]] + s[1..] && s == s[..|s| - 1] + [s[|s| - 1]]
  {}

  lemma TrimLeftParts(space: char -> bool, s: string) returns (before: string)
    ensures s == before + TrimLeft(space, s) && AllOf(space, before)
  {
    TrimLeftDropsSpace(space, s);
    before := s[..|s| - |TrimLeft(space, s)|];
    CutLeft(s, TrimLeft(space, s));
  }

  lemma CutLeft(s: string, r: string)
    requires |r| <= |s| && r == s[|s| - |r|..]
    ensures s == s[..|s| - |r|] + r
  {}

  lemma {:induction false} TrimRightParts(space: char -> bool, s: string) returns (behind: string)
    ensures s == TrimRight(space, s) + behind && AllOf(space, behind)
  {
    behind := "";
    if s != "" && space(s[|s| - 1]) {
      var k := |s| - 1;
      var more := TrimRightParts(space, s[..k]);
      behind := more + [s[k]];
      HeadTail(s);
      Regroup(TrimRight(space, s[..k]), more, [s[k]]);
    }
  }

  lemma Regroup(a: string, b: string, c: string)
    ensures a + (b + c) == a + b + c
  {}

  /** What trimming is: the text is the result between two stretches of space. With the contract of
      `Trim`, whose result neither begins nor ends with one, this says what it computes. */
  lemma TrimParts(space: char -> bool, s: string) returns (before: string, behind: string)
    ensures s == before + Trim(space, s) + behind && AllOf(space, before) && AllOf(space, behind)
  {
    before := TrimLeftParts(space, s);
    var left := TrimLeft(space, s);
    behind := TrimRightParts(space, left);
    Regroup(before, TrimRight(space, left), behind);
  }

  lemma {:induction false} TrimLeftSkips(space: char -> bool, blanks: string, s: string)
    requires AllOf(space, blanks)
    ensures TrimLeft(space, blanks + s) == TrimLeft(space, s)
  {
    if blanks == "" {
      assert blanks + s == s;
    } else {
      assert (blanks + s)[1..] == blanks[1..] + s;
      TrimLeftSkips(space, blanks[1..], s);
    }
  }

  lemma {:induction false} TrimRightSkips(space: char -> bool, s: string, blanks: string)
    requires AllOf(space, blanks)
    ensures TrimRight(space, s + blanks) == TrimRight(space, s)
  {
    if blanks == "" {
      assert s + blanks == s;
    } else {
      var k := |blanks| - 1;
      assert (s + blanks)[..|s + blanks| - 1] == s + blanks[..k];
      TrimRightSkips(space, s, blanks[..k]);
    }
  }

  lemma {:induction false} TrimLeftWith(space: char -> bool, s: string, behind: string)
    requires AllOf(space, behind)
    ensures TrimLeft(space, s + behind) == if TrimLeft(space, s) == "" then "" else TrimLeft(space, s) + behind
  {
    if s == "" {
      assert s + behind == behind + "";
      TrimLeftSkips(space, behind, "");
    } else if space(s[0]) {
      assert (s + behind)[1..] == s[1..] + behind;
      TrimLeftWith(space, s[1..], behind);
    }
  }

  /** Space around a text does not matter. */
  lemma TrimSkips(space: char -> bool, before: string, s: string, behind: string)
    requires AllOf(space, before) && AllOf(space, behind)
    ensures Trim(space, before + s + behind) == Trim(space, s)
  {
    Regroup(before, s, behind);
    TrimLeftSkips(space, before, s + behind);
    TrimLeftWith(space, s, behind);
    TrimRightSkips(space, TrimLeft(space, s), behind);
  }

  /** The white space of Go, code point by code point. */
  lemma GoSpaceTable(c: char)
    ensures GoSpace(c) <==>
            c as int in {0x09, 0x0a, 0x0b, 0x0c, 0x0d, 0x20, 0x85, 0xa0, 0x1680, 0x2000, 0x2001, 0x2002, 0x2003,
                                         0x2004, 0x2005, 0x2006, 0x2007, 0x2008, 0x2009, 0x200a, 0x2028, 0x2029,
                                           0x202f, 0x205f, 0x3000}
    ensures PythonSpace(c) <==> GoSpace(c) || c as int in {0x1c, 0x1d, 0x1e, 0x1f}
  {}
}
