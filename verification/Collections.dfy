/** Facts about sequences, sets and maps that several models use. */
module Collections {

  ghost predicate Distinct<T>(s: seq<T>) {
    forall i, j :: 0 <= i < j < |s| ==> s[i] != s[j]
  }

  lemma DistinctSnoc<T>(s: seq<T>, last: T)
    requires Distinct(s) && last !in s
    ensures Distinct(s + [last])
  {}

  lemma DistinctHead<T>(s: seq<T>, x: T)
    requires Distinct(s) && s != []
    ensures Distinct(s[1..]) && (x in s <==> x == s[0] || x in s[1..]) && !(x == s[0] && x in s[1..])
  {
    assert s == [s[0]] + s[1..];
  }

  /** Inserting anywhere adds the same member. */
  lemma InsertMembers<T>(s: seq<T>, x: T, n: nat, m: T)
    requires n <= |s|
    ensures m in s[..n] + [x] + s[n..] <==> m in s || m == x
  {
    assert s == s[..n] + s[n..];
    assert m in s <==> m in s[..n] || m in s[n..];
  }

  lemma TakeOneMore<T>(s: seq<T>, i: nat)
    requires i < |s|
    ensures s[..i + 1] == s[..i] + [s[i]]
  {}

  lemma MoveHead<T>(done: seq<T>, todo: seq<T>)
    requires todo != []
    ensures done + todo == done + [todo[0]] + todo[1..]
  {}

  lemma SomeMember<T>(s: set<T>) returns (x: T)
    requires s != {}
    ensures x in s
  {
    x :| x in s;
  }

  lemma {:induction false} SubsetSize<T>(a: set<T>, b: set<T>)
    requires a <= b
    ensures |a| <= |b|
  {
    if a != {} {
      var x :| x in a;
      SubsetSize(a - {x}, b - {x});
    }
  }

  lemma {:induction false} SequenceCovers<T>(s: seq<T>, members: set<T>)
    requires forall x :: x in members ==> x in s
    ensures |members| <= |s|
  {
    if s != [] {
      assert s == [s[0]] + s[1..];
      SequenceCovers(s[1..], members - {s[0]});
    } else {
      assert members == {};
    }
  }

  lemma SameMap<K, V>(a: map<K, V>, b: map<K, V>)
    requires a.Keys == b.Keys && forall k :: k in a ==> b[k] == a[k]
    ensures b == a
  {}
}
