/** The comma-separated origin list of the configuration. */
module OriginList {
  import opened Text
  import opened Collections

  /** First occurrences in order, empty strings left out. */
  function Dedup(items: seq<string>): seq<string> {
    if items == [] then [] else AddOnce(Dedup(items[..|items| - 1]), items[|items| - 1])
  }

  function AddOnce(before: seq<string>, item: string): seq<string> {
    if item == "" || item in before then before else before + [item]
  }

  lemma DedupSnoc(items: seq<string>, i: nat)
    requires i < |items|
    ensures Dedup(items[..i + 1]) == AddOnce(Dedup(items[..i]), items[i])
  {
    assert items[..i + 1][..i] == items[..i];
  }

  function Trimmed(pieces: seq<string>): seq<string> {
    seq(|pieces|, i requires 0 <= i < |pieces| => GoTrim(pieces[i]))
  }

  /** The meaning of an origin list. */
  function Origins(v: string): seq<string> {
    Dedup(Trimmed(Split(v, ',')))
  }

  /** The loop over the pieces with its `seen` set. */
  method SplitCsv(v: string) returns (out: seq<string>)
    ensures out == Origins(v)
  {
    if GoTrim(v) == "" {
      BlankHasNoItems(v);
      return [];
    }
    var pieces := Split(v, ',');
    ghost var items := Trimmed(pieces);
    var seen: set<string> := {};
    out := [];
    for i := 0 to |pieces|
      invariant out == Dedup(items[..i])
      invariant forall s :: s in seen <==> s in out
    {
      DedupSnoc(items, i);
      var item := GoTrim(pieces[i]);
      assert item == items[i];
      if item == "" || item in seen {
        continue;
      }
      seen := seen + {item};
      out := out + [item];
    }
    assert items[..|pieces|] == items;
  }

  lemma BlankHasNoItems(v: string)
    requires GoTrim(v) == ""
    ensures Origins(v) == []
  {
    TrimEmptyIff(GoSpace, v);
    assert ',' !in v;
    SplitSolid(v, ',');
    assert Trimmed([v]) == [""];
    assert Dedup([""]) == [] by {
      assert [""][..|[""]| - 1] == [];
    }
  }

  lemma {:induction false} DedupForm(items: seq<string>)
    ensures Distinct(Dedup(items))
    ensures forall s :: s in Dedup(items) <==> s != "" && s in items
  {
    if items != [] {
      var n := |items| - 1;
      DedupForm(items[..n]);
      assert items == items[..n] + [items[n]];
    }
  }

  /** `i` comes before `j` in the list only if its first occurrence does. */
  lemma {:induction false} DedupOrder(items: seq<string>, i: nat, j: nat)
    requires i < j < |Dedup(items)|
    ensures exists p :: 0 <= p < |items| && items[p] == Dedup(items)[i] && Dedup(items)[j] !in items[..p + 1]
  {
    var n := |items| - 1;
    var before := Dedup(items[..n]);
    if j < |before| {
      DedupOrder(items[..n], i, j);
      var p :| 0 <= p < n && items[..n][p] == before[i] && before[j] !in items[..n][..p + 1];
      assert items[..n][..p + 1] == items[..p + 1];
    } else {
      DedupForm(items[..n]);
      assert before[i] in before;
      var p :| 0 <= p < n && items[..n][p] == before[i];
      assert items[n] !in items[..n];
      assert items[..p + 1] <= items[..n];
    }
  }

  /** Normal form: the list holds exactly the trimmed parts between commas that are not empty, each
      once, each free of commas and of surrounding space, in the order in which they first occur. */
  lemma NormalForm(v: string)
    ensures Distinct(Origins(v))
    ensures forall s :: s in Origins(v) <==> s != "" && exists part :: PartOf(part, v, ',') && GoTrim(part) == s
    ensures forall s :: s in Origins(v) ==> ',' !in s && GoTrim(s) == s
    ensures forall i, j :: 0 <= i < j < |Origins(v)| ==> FirstBefore(Split(v, ','), Origins(v)[i], Origins(v)[j])
  {
    var pieces := Split(v, ',');
    var items := Trimmed(pieces);
    DedupForm(items);
    forall s ensures s in items <==> exists part :: PartOf(part, v, ',') && GoTrim(part) == s {
      TrimmedParts(v, s);
    }
    forall s | s in Origins(v) ensures ',' !in s && GoTrim(s) == s {
      var p :| 0 <= p < |items| && items[p] == s;
      TrimTwice(GoSpace, pieces[p]);
      TrimHasNoNewChars(GoSpace, pieces[p], ',');
    }
    forall i, j | 0 <= i < j < |Origins(v)| ensures FirstBefore(pieces, Origins(v)[i], Origins(v)[j]) {
      DedupOrder(items, i, j);
      var p :| 0 <= p < |items| && items[p] == Origins(v)[i] && Origins(v)[j] !in items[..p + 1];
      forall q | 0 <= q <= p ensures GoTrim(pieces[q]) != Origins(v)[j] {
        assert items[..p + 1][q] == GoTrim(pieces[q]);
      }
    }
  }

  lemma TrimmedParts(v: string, s: string)
    ensures s in Trimmed(Split(v, ',')) <==> exists part :: PartOf(part, v, ',') && GoTrim(part) == s
  {
    var pieces := Split(v, ',');
    if s in Trimmed(pieces) {
      var p :| 0 <= p < |pieces| && Trimmed(pieces)[p] == s;
      PartIff(pieces[p], v, ',');
    }
    if part :| PartOf(part, v, ',') && GoTrim(part) == s {
      PartIff(part, v, ',');
      var p :| 0 <= p < |pieces| && pieces[p] == part;
      assert Trimmed(pieces)[p] == s;
    }
  }

  /** Some piece that trims to a comes before every piece that trims to b. */
  ghost predicate FirstBefore(pieces: seq<string>, a: string, b: string) {
    exists p :: 0 <= p < |pieces| && GoTrim(pieces[p]) == a && forall q :: 0 <= q <= p ==> GoTrim(pieces[q]) != b
  }

  lemma {:induction false} DedupOfDistinct(items: seq<string>)
    requires Distinct(items) && "" !in items
    ensures Dedup(items) == items
  {
    if items != [] {
      var n := |items| - 1;
      assert items[n] in items;
      DedupOfDistinct(items[..n]);
      assert items == items[..n] + [items[n]];
    }
  }

  /** Round trip: joining the list with commas and splitting it again gives the same list. */
  lemma RoundTrip(v: string)
    ensures Origins(Join(Origins(v), ',')) == Origins(v)
  {
    var items := Origins(v);
    NormalForm(v);
    if items == [] {
      BlankHasNoItems("");
    } else {
      forall i | 0 <= i < |items| ensures ',' !in items[i] && GoTrim(items[i]) == items[i] {
        assert items[i] in items;
      }
      SplitOfJoin(items, ',');
      assert Trimmed(items) == items;
      DedupOfDistinct(items);
    }
  }
}
