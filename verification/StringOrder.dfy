/** Strings ordered by code points, which is the order of their UTF-8 bytes. */
module StringOrder {
  import opened Collections

  predicate Less(a: string, b: string) {
    b != "" && (a == "" || a[0] < b[0] || (a[0] == b[0] && Less(a[1..], b[1..])))
  }

  /** The order by the first difference, a prefix coming first. */
  lemma {:induction false} LessIff(a: string, b: string)
    ensures Less(a, b) <==> exists n :: FirstDifference(a, b, n)
  {
    if a != "" && b != "" && a[0] == b[0] {
      LessIff(a[1..], b[1..]);
      assert a == [a[0]] + a[1..] && b == [b[0]] + b[1..];
      if n :| FirstDifference(a[1..], b[1..], n) {
        assert a[..n + 1] == [a[0]] + a[1..][..n] && b[..n + 1] == [b[0]] + b[1..][..n];
        assert FirstDifference(a, b, n + 1);
      }
      if n :| FirstDifference(a, b, n) {
        assert n > 0 && a[1..][..n - 1] == a[..n][1..] && b[1..][..n - 1] == b[..n][1..];
        assert FirstDifference(a[1..], b[1..], n - 1);
      }
    } else if Less(a, b) {
      assert FirstDifference(a, b, 0);
    }
  }

  /** The strings agree on the first n characters, and then the first one ends or has the lower one. */
  ghost predicate FirstDifference(a: string, b: string, n: int) {
    0 <= n <= |a| && n < |b| && a[..n] == b[..n] && (n == |a| || a[n] < b[n])
  }

  lemma {:induction false} LessIsStrict(a: string)
    ensures !Less(a, a)
  {
    if a != "" {
      LessIsStrict(a[1..]);
    }
  }

  lemma {:induction false} LessIsTotal(a: string, b: string)
    ensures a == b || Less(a, b) || Less(b, a)
  {
    if a != "" && b != "" && a[0] == b[0] {
      LessIsTotal(a[1..], b[1..]);
      assert a == [a[0]] + a[1..] && b == [b[0]] + b[1..];
    }
  }

  lemma {:induction false} LessIsTransitive(a: string, b: string, c: string)
    requires Less(a, b) && Less(b, c)
    ensures Less(a, c)
  {
    if a != "" && a[0] == b[0] == c[0] {
      LessIsTransitive(a[1..], b[1..], c[1..]);
    }
  }

  ghost predicate Ascending(s: seq<string>) {
    forall i, j :: 0 <= i < j < |s| ==> Less(s[i], s[j])
  }

  /** Two ascending listings of the same strings are the same. */
  lemma {:induction false} ListingIsUnique(a: seq<string>, b: seq<string>)
    requires Ascending(a) && Ascending(b)
    requires forall x :: x in a <==> x in b
    ensures a == b
  {
    HasMember(a);
    HasMember(b);
    if a != [] {
      assert a[0] in a && a[0] in b;
      assert b[0] in b && b[0] in a;
      HeadIsLeast(a, b[0]);
      HeadIsLeast(b, a[0]);
      if a[0] != b[0] {
        LessIsTransitive(a[0], b[0], a[0]);
        LessIsStrict(a[0]);
      }
      forall x ensures x in a[1..] <==> x in b[1..] {
        TailIsRest(a, x);
        TailIsRest(b, x);
      }
      ListingIsUnique(a[1..], b[1..]);
    }
  }

  lemma HasMember(s: seq<string>)
    ensures s == [] || s[0] in s
    ensures s == [] || exists x :: x in s
  {
    assert s == [] || s[0] in s;
  }

  lemma HeadIsLeast(s: seq<string>, x: string)
    requires Ascending(s) && x in s
    ensures x == s[0] || Less(s[0], x)
  {}

  lemma TailIsRest(s: seq<string>, x: string)
    requires Ascending(s) && s != []
    ensures x in s[1..] <==> x in s && x != s[0]
  {
    if x in s[1..] {
      var i :| 0 <= i < |s[1..]| && s[1..][i] == x;
      assert Less(s[0], s[i + 1]);
      LessIsStrict(s[0]);
    }
    if x in s && x != s[0] {
      var i :| 0 <= i < |s| && s[i] == x;
      assert s[1..][i - 1] == x;
    }
  }

  lemma AscendingIsDistinct(s: seq<string>, i: nat, j: nat)
    requires Ascending(s) && i < |s| && j < |s| && s[i] == s[j]
    ensures i == j
  {
    LessIsStrict(s[i]);
  }

  /** Position of the first element that is not below x. */
  function Rank(s: seq<string>, x: string): (n: nat)
    ensures n <= |s|
    ensures forall i :: 0 <= i < n ==> Less(s[i], x)
    ensures n < |s| ==> !Less(s[n], x)
  {
    if s != [] && Less(s[0], x) then 1 + Rank(s[1..], x) else 0
  }

  lemma InsertKeepsAscending(s: seq<string>, x: string)
    requires Ascending(s) && x !in s
    ensures var n := Rank(s, x);
            Ascending(s[..n] + [x] + s[n..]) && forall y :: y in s[..n] + [x] + s[n..] <==> y in s || y == x
  {
    var n := Rank(s, x);
    forall i | n <= i < |s| ensures Less(x, s[i]) {
      LessIsTotal(x, s[n]);
      assert s[n] in s;
      if n < i {
        LessIsTransitive(x, s[n], s[i]);
      }
    }
    InsertAscending(s, x, n);
    forall y ensures y in s[..n] + [x] + s[n..] <==> y in s || y == x {
      InsertMembers(s, x, n, y);
    }
  }

  lemma InsertAscending(s: seq<string>, x: string, n: nat)
    requires Ascending(s) && n <= |s|
    requires (forall i :: 0 <= i < n ==> Less(s[i], x)) && forall i :: n <= i < |s| ==> Less(x, s[i])
    ensures Ascending(s[..n] + [x] + s[n..])
  {
    var t := s[..n] + [x] + s[n..];
    assert forall i :: 0 <= i < |t| ==> t[i] == if i < n then s[i] else if i == n then x else s[i - 1];
    forall i, j | 0 <= i < j < |t| ensures Less(t[i], t[j]) {
      if i < n < j {
        LessIsTransitive(s[i], x, s[j - 1]);
      }
    }
  }

  /** Insertion of distinct strings one after the other. */
  method Sort(keys: seq<string>) returns (sorted: seq<string>)
    requires Distinct(keys)
    ensures Ascending(sorted) && forall x :: x in sorted <==> x in keys
  {
    sorted := [];
    for i := 0 to |keys|
      invariant Ascending(sorted) && forall x :: x in sorted <==> x in keys[..i]
    {
      InsertKeepsAscending(sorted, keys[i]);
      var n := Rank(sorted, keys[i]);
      sorted := sorted[..n] + [keys[i]] + sorted[n..];
    }
    assert keys[..|keys|] == keys;
  }

  /** The ascending listing of a finite set. */
  ghost function Listing(s: set<string>): (sorted: seq<string>)
    ensures Ascending(sorted) && forall x :: x in sorted <==> x in s
  {
    if s == {} then []
    else
      var x :| x in s;
      var rest := Listing(s - {x});
      InsertKeepsAscending(rest, x);
      var n := Rank(rest, x);
      rest[..n] + [x] + rest[n..]
  }
}
