/** Two programs read the same govulncheck stream: the gate of the build and the verifier of the
    release bundle. The JSON scanner itself is a parameter. */
module VulnerabilityGates {
  import opened Text
  import opened Collections

  datatype Json =
    | Null
    | Bool(b: bool)
    | Number(n: real)
    | Str(s: string)
    | List(items: seq<Json>)
    | Object(fields: map<string, Json>)

  /** `raw_decode`: the value at a position and the position behind it, or a decode error. */
  type Scanner = (string, nat) -> Option<(Json, nat)>

  // ---------------------------------------------------------------- the stream

  datatype Stream = Messages(messages: seq<Json>) | BadJson | NotAnObject | NoMessages

  function SkipSpace(raw: string, pos: nat): (r: nat)
    requires pos <= |raw|
    ensures pos <= r <= |raw|
    ensures forall i :: pos <= i < r ==> PythonSpace(raw[i])
    ensures r < |raw| ==> !PythonSpace(raw[r])
    decreases |raw| - pos
  {
    if pos < |raw| && PythonSpace(raw[pos]) then SkipSpace(raw, pos + 1) else pos
  }

  /** A scanner consumes something and stays inside the text. */
  ghost predicate Advances(scan: Scanner) {
    forall raw, pos: nat :: pos < |raw| && scan(raw, pos).Some? ==> pos < scan(raw, pos).value.1 <= |raw|
  }

  /** What the loop makes of the rest of the text. */
  ghost function Rest(scan: Scanner, raw: string, pos: nat, found: seq<Json>): Stream
    requires Advances(scan) && pos <= |raw|
    decreases |raw| - pos
  {
    var at := SkipSpace(raw, pos);
    if at >= |raw| then (if found == [] then NoMessages else Messages(found))
    else
      match scan(raw, at)
      case None => BadJson
      case Some((value, next)) => if !value.Object? then NotAnObject else Rest(scan, raw, next, found + [value])
  }

  ghost function Decoded(scan: Scanner, raw: string): Stream
    requires Advances(scan)
  {
    Rest(scan, raw, 0, [])
  }

  /** The gate's decoder raises; its caller turns every error into exit code 2. */
  method DecodeStream(scan: Scanner, raw: string) returns (result: Option<seq<Json>>)
    requires Advances(scan)
    ensures result == if Decoded(scan, raw).Messages? then Some(Decoded(scan, raw).messages) else None
  {
    var pos := 0;
    var messages: seq<Json> := [];
    while true
      invariant 0 <= pos <= |raw|
      invariant Decoded(scan, raw) == Rest(scan, raw, pos, messages)
      decreases |raw| - pos
    {
      ghost var start := pos;
      while pos < |raw| && PythonSpace(raw[pos])
        invariant start <= pos <= |raw| && SkipSpace(raw, pos) == SkipSpace(raw, start)
      {
        pos := pos + 1;
      }
      if pos >= |raw| {
        break;
      }
      var scanned := scan(raw, pos);
      if scanned.None? || !scanned.value.0.Object? {
        return None;
      }
      pos := scanned.value.1;
      messages := messages + [scanned.value.0];
    }
    result := if messages == [] then None else Some(messages);
  }

  /** The verifier's decoder stops the program with the reason. */
  method VerifierDecode(scan: Scanner, raw: string) returns (result: Stream)
    requires Advances(scan)
    ensures result == Decoded(scan, raw)
  {
    var pos := 0;
    var messages: seq<Json> := [];
    while true
      invariant 0 <= pos <= |raw|
      invariant Decoded(scan, raw) == Rest(scan, raw, pos, messages)
      decreases |raw| - pos
    {
      ghost var start := pos;
      while pos < |raw| && PythonSpace(raw[pos])
        invariant start <= pos <= |raw| && SkipSpace(raw, pos) == SkipSpace(raw, start)
      {
        pos := pos + 1;
      }
      if pos >= |raw| {
        break;
      }
      match scan(raw, pos) {
        case None =>
          return BadJson;
        case Some((value, next)) =>
          if !value.Object? {
            return NotAnObject;
          }
          pos := next;
          messages := messages + [value];
      }
    }
    result := if messages == [] then NoMessages else Messages(messages);
  }

  // ---------------------------------------------------------------- the stream is read back

  /** The scanner reads this printed value back wherever it stands, whatever follows it. */
  ghost predicate ReadsBack(scan: Scanner, print_: Json -> string, v: Json) {
    print_(v) != "" && !PythonSpace(print_(v)[0]) &&
    forall before: string, after: string ::
      scan(before + print_(v) + after, |before|) == Some((v, |before| + |print_(v)|))
  }

  ghost predicate AllReadBack(scan: Scanner, print_: Json -> string, values: seq<Json>) {
    forall v :: v in values ==> v.Object? && ReadsBack(scan, print_, v)
  }

  /** Objects, each with space (or none) before it. */
  function Layout(print_: Json -> string, gaps: seq<string>, values: seq<Json>): string
    requires |gaps| == |values|
  {
    if values == [] then "" else gaps[0] + print_(values[0]) + Layout(print_, gaps[1..], values[1..])
  }

  lemma SkipGap(raw: string, pos: nat, gap: string, rest: string)
    requires pos <= |raw| && raw[pos..] == gap + rest && AllOf(PythonSpace, gap)
    requires rest == "" || !PythonSpace(rest[0])
    ensures SkipSpace(raw, pos) == pos + |gap|
  {
    var r := SkipSpace(raw, pos);
    assert forall i :: 0 <= i < |gap| ==> raw[pos + i] == gap[i];
    if rest != "" {
      assert raw[pos + |gap|] == rest[0];
    }
  }

  lemma RestStep(scan: Scanner, raw: string, pos: nat, at: nat, next: nat, v: Json, found: seq<Json>)
    requires Advances(scan) && pos <= |raw| && SkipSpace(raw, pos) == at < |raw|
    requires v.Object? && scan(raw, at) == Some((v, next))
    ensures next <= |raw| && Rest(scan, raw, pos, found) == Rest(scan, raw, next, found + [v])
  {}

  lemma RestEnd(scan: Scanner, raw: string, pos: nat, found: seq<Json>)
    requires Advances(scan) && pos <= |raw| && AllOf(PythonSpace, raw[pos..]) && found != []
    ensures Rest(scan, raw, pos, found) == Messages(found)
  {
    assert raw[pos..] == raw[pos..] + "";
    SkipGap(raw, pos, raw[pos..], "");
  }

  lemma ScansAt(scan: Scanner, print_: Json -> string, raw: string, at: nat, v: Json, more: string)
    requires ReadsBack(scan, print_, v) && at <= |raw| && raw[at..] == print_(v) + more
    ensures scan(raw, at) == Some((v, at + |print_(v)|)) && print_(v) != "" && !PythonSpace(print_(v)[0])
  {
    var before := raw[..at];
    assert raw == before + print_(v) + more by {
      assert raw == before + raw[at..];
    }
    assert scan(before + print_(v) + more, |before|) == Some((v, |before| + |print_(v)|));
  }

  lemma LayoutHead(print_: Json -> string, gaps: seq<string>, values: seq<Json>, tail: string)
    requires |gaps| == |values| > 0
    ensures Layout(print_, gaps, values) + tail ==
              gaps[0] + (print_(values[0]) + (Layout(print_, gaps[1..], values[1..]) + tail))
  {}

  lemma Slices(raw: string, pos: nat, gap: string, text: string, more: string)
    requires pos <= |raw| && raw[pos..] == gap + (text + more)
    ensures pos + |gap| + |text| <= |raw|
    ensures raw[pos + |gap|..] == text + more && raw[pos + |gap| + |text|..] == more
  {
    assert |raw[pos..]| == |gap| + |text| + |more|;
    assert raw[pos + |gap|..] == raw[pos..][|gap|..];
    assert raw[pos + |gap| + |text|..] == raw[pos..][|gap| + |text|..];
  }

  lemma {:induction false} RestReadsBack(scan: Scanner, print_: Json -> string, raw: string, pos: nat,
                                          gaps: seq<string>, values: seq<Json>, tail: string,
                                          found: seq<Json>, all: seq<Json>)
    requires Advances(scan) && AllReadBack(scan, print_, values) && |gaps| == |values| && AllOf(PythonSpace, tail)
    requires forall i :: 0 <= i < |gaps| ==> AllOf(PythonSpace, gaps[i])
    requires all == found + values && all != [] && pos <= |raw| && raw[pos..] == Layout(print_, gaps, values) + tail
    ensures Rest(scan, raw, pos, found) == Messages(all)
    decreases |values|
  {
    if values == [] {
      assert raw[pos..] == tail && all == found;
      RestEnd(scan, raw, pos, found);
    } else {
      var v, more := values[0], Layout(print_, gaps[1..], values[1..]) + tail;
      assert v in values;
      LayoutHead(print_, gaps, values, tail);
      var next := ReadOne(scan, print_, raw, pos, gaps[0], v, more, found);
      MoveHead(found, values);
      assert forall w :: w in values[1..] ==> w in values;
      RestReadsBack(scan, print_, raw, next, gaps[1..], values[1..], tail, found + [v], all);
    }
  }

  /** One object, with the space before it, is read and the rest is left. */
  lemma ReadOne(scan: Scanner, print_: Json -> string, raw: string, pos: nat, gap: string, v: Json, more: string,
                found: seq<Json>) returns (next: nat)
    requires Advances(scan) && ReadsBack(scan, print_, v) && AllOf(PythonSpace, gap) && v.Object?
    requires pos <= |raw| && raw[pos..] == gap + (print_(v) + more)
    ensures next <= |raw| && raw[next..] == more
    ensures Rest(scan, raw, pos, found) == Rest(scan, raw, next, found + [v])
  {
    var at := pos + |gap|;
    next := at + |print_(v)|;
    Slices(raw, pos, gap, print_(v), more);
    ScansAt(scan, print_, raw, at, v, more);
    SkipGap(raw, pos, gap, print_(v) + more);
    RestStep(scan, raw, pos, at, next, v, found);
  }

  /** Round trip: from any concatenation of printed objects, with any space between, both decoders
      recover exactly the message list. */
  lemma StreamRoundTrip(scan: Scanner, print_: Json -> string, gaps: seq<string>, values: seq<Json>, tail: string)
    requires Advances(scan) && AllReadBack(scan, print_, values) && |gaps| == |values| > 0 && AllOf(PythonSpace, tail)
    requires forall i :: 0 <= i < |gaps| ==> AllOf(PythonSpace, gaps[i])
    ensures Decoded(scan, Layout(print_, gaps, values) + tail) == Messages(values)
  {
    var raw := Layout(print_, gaps, values) + tail;
    assert raw[0..] == raw;
    assert [] + values == values;
    RestReadsBack(scan, print_, raw, 0, gaps, values, tail, [], values);
  }

  // ---------------------------------------------------------------- such scanners exist

  function Marks(n: nat): string {
    if n == 0 then "" else "|" + Marks(n - 1)
  }

  function CountMarks(s: string): (n: nat)
    ensures n <= |s|
  {
    if s != "" && s[0] == '|' then 1 + CountMarks(s[1..]) else 0
  }

  lemma {:induction false} CountOfMarks(n: nat, rest: string)
    requires rest != "" && rest[0] != '|'
    ensures |Marks(n)| == n && CountMarks(Marks(n) + rest) == n
  {
    if n == 0 {
      assert Marks(n) + rest == rest;
    } else {
      CountOfMarks(n - 1, rest);
      assert (Marks(n) + rest)[1..] == Marks(n - 1) + rest;
    }
  }

  ghost function Place(values: seq<Json>, v: Json): (n: nat)
    ensures v in values ==> n < |values| && values[n] == v
  {
    if values == [] || values[0] == v then 0 else 1 + Place(values[1..], v)
  }

  /** Prints the place of a value in a list. */
  ghost function Tag(values: seq<Json>, v: Json): string {
    "{" + (Marks(Place(values, v)) + "}")
  }

  /** Reads such a tag. */
  function ReadTag(values: seq<Json>, raw: string, pos: nat): Option<(Json, nat)> {
    if pos >= |raw| || raw[pos] != '{' then None
    else
      var n := CountMarks(raw[pos + 1..]);
      if n < |values| && pos + 1 + n < |raw| && raw[pos + 1 + n] == '}' then Some((values[n], pos + n + 2)) else None
  }

  lemma TagIsRead(values: seq<Json>, v: Json, before: string, after: string)
    requires v in values
    ensures ReadTag(values, before + Tag(values, v) + after, |before|) == Some((v, |before| + |Tag(values, v)|))
  {
    var n, raw := Place(values, v), before + Tag(values, v) + after;
    CountOfMarks(n, "}" + after);
    assert raw[|before|] == '{' && raw[|before| + 1..] == Marks(n) + ("}" + after);
    assert raw[|before| + 1..][n] == '}';
  }

  /** For every list of objects there are a scanner and a printer as the round trip asks for. */
  lemma ScannersExist(values: seq<Json>) returns (scan: Scanner, print_: Json -> string)
    requires forall v :: v in values ==> v.Object?
    ensures Advances(scan) && AllReadBack(scan, print_, values)
  {
    scan := (raw, pos) => ReadTag(values, raw, pos);
    print_ := v => Tag(values, v);
    forall v | v in values ensures ReadsBack(scan, print_, v) {
      forall before: string, after: string
        ensures scan(before + print_(v) + after, |before|) == Some((v, |before| + |print_(v)|))
      {
        TagIsRead(values, v, before, after);
      }
    }
  }

  // ---------------------------------------------------------------- the findings

  function Get(v: Json, key: string): Json {
    if v.Object? && key in v.fields then v.fields[key] else Null
  }

  predicate Truthy(v: Json) {
    match v
    case Null => false
    case Bool(b) => b
    case Number(n) => n != 0.0
    case Str(s) => s != ""
    case List(items) => items != []
    case Object(fields) => fields != map[]
  }

  /** A symbol-level finding: its first trace frame names a function. */
  predicate SymbolLevel(msg: Json) {
    var finding := Get(msg, "finding");
    var trace := Get(finding, "trace");
    finding.Object? && trace.List? && trace.items != [] && trace.items[0].Object? &&
    Get(trace.items[0], "function").Str? && PythonStrip(Get(trace.items[0], "function").s) != ""
  }

  function FirstFrame(msg: Json): Json
    requires SymbolLevel(msg)
  {
    Get(Get(msg, "finding"), "trace").items[0]
  }

  datatype Finding = Finding(osv: string, module_: string, package: string, symbol: string)

  function TextOr(str: Json -> string, v: Json, default: string): string {
    if Truthy(v) then str(v) else default
  }

  function Osv(str: Json -> string, finding: Json): string {
    TextOr(str, Get(finding, "osv"), "unknown")
  }

  function Symbol(frame: Json): string
    requires Get(frame, "function").Str?
  {
    var receiver := Get(frame, "receiver");
    var name := PythonStrip(Get(frame, "function").s);
    if receiver.Str? && PythonStrip(receiver.s) != "" then PythonStrip(receiver.s) + "." + name else name
  }

  function FindingOf(str: Json -> string, msg: Json): Finding
    requires SymbolLevel(msg)
  {
    var frame := FirstFrame(msg);
    Finding(Osv(str, Get(msg, "finding")), TextOr(str, Get(frame, "module"), ""),
            TextOr(str, Get(frame, "package"), ""), Symbol(frame))
  }

  /** The six values that count as false. */
  lemma FalsyValues(v: Json)
    ensures !Truthy(v) <==>
            v == Null || v == Bool(false) || v == Number(0.0) || v == Str("") || v == List([]) || v == Object(map[])
  {}

  /** `text` names the function of the first frame of the finding with these fields. */
  ghost predicate NamesFunction(msg: Json, fields: map<string, Json>, frame: map<string, Json>, text: string) {
    msg.Object? && "finding" in msg.fields && msg.fields["finding"] == Object(fields) &&
    "trace" in fields && fields["trace"].List? && fields["trace"].items != [] &&
    fields["trace"].items[0] == Object(frame) && "function" in frame && frame["function"] == Str(text) &&
    exists c :: c in text && !PythonSpace(c)
  }

  /** A symbol-level finding in terms of the JSON: an object `finding`, whose `trace` is a list that
      begins with an object, whose `function` is a text of more than white space. */
  lemma SymbolLevelIff(msg: Json)
    ensures SymbolLevel(msg) <==> exists fields, frame, text :: NamesFunction(msg, fields, frame, text)
  {
    if SymbolLevel(msg) {
      var finding := msg.fields["finding"];
      var frame := finding.fields["trace"].items[0];
      var text := frame.fields["function"].s;
      TrimEmptyIff(PythonSpace, text);
      assert NamesFunction(msg, finding.fields, frame.fields, text);
    }
    if fields, frame, text :| NamesFunction(msg, fields, frame, text) {
      TrimEmptyIff(PythonSpace, text);
    }
  }

  /** The identifier of a finding; a missing, empty or otherwise false one is `unknown`. */
  lemma OsvIs(str: Json -> string, fields: map<string, Json>)
    ensures "osv" !in fields ==> Osv(str, Object(fields)) == "unknown"
    ensures "osv" in fields && !Truthy(fields["osv"]) ==> Osv(str, Object(fields)) == "unknown"
    ensures "osv" in fields && Truthy(fields["osv"]) ==> Osv(str, Object(fields)) == str(fields["osv"])
  {}

  /** What a message is to add to the gate's list. */
  function Reported(str: Json -> string): Json -> Option<Finding> {
    msg => if SymbolLevel(msg) then Some(FindingOf(str, msg)) else None
  }

  /** What a message is to add to the verifier's list. */
  function RawFinding(): Json -> Option<Json> {
    msg => if SymbolLevel(msg) then Some(Get(msg, "finding")) else None
  }

  /** The list holds what the first n messages add, and nothing else. */
  ghost predicate Holds<F>(report: Json -> Option<F>, messages: seq<Json>, n: nat, list: seq<F>)
    requires n <= |messages|
  {
    (forall i :: 0 <= i < n && report(messages[i]).Some? ==> report(messages[i]).value in list) &&
    (forall f :: f in list ==> exists i :: 0 <= i < n && report(messages[i]) == Some(f))
  }

  lemma HoldsMore<F>(report: Json -> Option<F>, messages: seq<Json>, n: nat, list: seq<F>, longer: seq<F>)
    requires n < |messages| && Holds(report, messages, n, list)
    requires longer == list || (report(messages[n]).Some? && longer == list + [report(messages[n]).value])
    requires report(messages[n]).Some? ==> report(messages[n]).value in longer
    ensures Holds(report, messages, n + 1, longer)
  {}

  /** The gate's filter on one message: one reason to go on to the next message after the other. */
  method Examine(str: Json -> string, msg: Json) returns (found: Option<Finding>)
    ensures found == Reported(str)(msg)
  {
    var finding := Get(msg, "finding");
    if !finding.Object? {
      return None;
    }
    var trace := Get(finding, "trace");
    if !trace.List? || trace.items == [] || !trace.items[0].Object? {
      return None;
    }
    var first := trace.items[0];
    var function_ := Get(first, "function");
    if !function_.Str? || PythonStrip(function_.s) == "" {
      return None;
    }
    var symbol := PythonStrip(function_.s);
    var receiver := Get(first, "receiver");
    if receiver.Str? && PythonStrip(receiver.s) != "" {
      symbol := PythonStrip(receiver.s) + "." + symbol;
    }
    var osv, module_, package := Get(finding, "osv"), Get(first, "module"), Get(first, "package");
    found := Some(Finding(if Truthy(osv) then str(osv) else "unknown",
                          if Truthy(module_) then str(module_) else "",
                          if Truthy(package) then str(package) else "", symbol));
  }

  /** The gate's list: no finding twice. */
  method ReachableFindings(str: Json -> string, messages: seq<Json>) returns (findings: seq<Finding>)
    ensures Holds(Reported(str), messages, |messages|, findings)
    ensures Distinct(findings)
  {
    ghost var report := Reported(str);
    findings := [];
    var seen: set<Finding> := {};
    for i := 0 to |messages|
      invariant forall f :: f in seen <==> f in findings
      invariant Holds(report, messages, i, findings)
      invariant Distinct(findings)
    {
      ghost var before := findings;
      var found := Examine(str, messages[i]);
      assert found == report(messages[i]);
      if found.Some? && found.value !in seen {
        DistinctSnoc(findings, found.value);
        seen := seen + {found.value};
        findings := findings + [found.value];
      }
      HoldsMore(report, messages, i, before, findings);
    }
  }

  /** The verifier's filter and list: two reasons to go on, then a positive test; findings are kept
      whether repeated or not. */
  method VerifierFindings(messages: seq<Json>) returns (reachable: seq<Json>)
    ensures Holds(RawFinding(), messages, |messages|, reachable)
  {
    ghost var report := RawFinding();
    reachable := [];
    for i := 0 to |messages|
      invariant Holds(report, messages, i, reachable)
    {
      var finding := Get(messages[i], "finding");
      if !finding.Object? {
        HoldsMore(report, messages, i, reachable, reachable);
        continue;
      }
      var trace := Get(finding, "trace");
      if !trace.List? || trace.items == [] || !trace.items[0].Object? {
        HoldsMore(report, messages, i, reachable, reachable);
        continue;
      }
      ghost var before := reachable;
      var function_ := Get(trace.items[0], "function");
      if function_.Str? && PythonStrip(function_.s) != "" {
        reachable := reachable + [finding];
      }
      HoldsMore(report, messages, i, before, reachable);
    }
  }

  // ---------------------------------------------------------------- the verdicts

  ghost predicate SomeFinding(messages: seq<Json>) {
    exists i :: 0 <= i < |messages| && SymbolLevel(messages[i])
  }

  /** The identifiers of the findings of the messages. */
  ghost function Osvs(str: Json -> string, messages: seq<Json>): set<string> {
    set i | 0 <= i < |messages| && SymbolLevel(messages[i]) :: Osv(str, Get(messages[i], "finding"))
  }

  /** The gate: 2 for an unreadable stream, 1 for findings, 0 otherwise. */
  method Gate(scan: Scanner, str: Json -> string, raw: string) returns (code: int, osvs: set<string>)
    requires Advances(scan)
    ensures code == 2 <==> !Decoded(scan, raw).Messages?
    ensures code == 1 <==> Decoded(scan, raw).Messages? && SomeFinding(Decoded(scan, raw).messages)
    ensures code in {0, 1, 2}
    ensures code != 2 ==> osvs == Osvs(str, Decoded(scan, raw).messages)
  {
    osvs := {};
    var messages := DecodeStream(scan, raw);
    if messages.None? {
      return 2, {};
    }
    var findings := ReachableFindings(str, messages.value);
    osvs := set f | f in findings :: f.osv;
    GateOsvs(str, messages.value, findings);
    code := if findings != [] then 1 else 0;
  }

  /** The names of a list that holds what the messages add. */
  lemma NamesOf<F>(report: Json -> Option<F>, name: F -> string, messages: seq<Json>, list: seq<F>, names: set<string>)
    requires Holds(report, messages, |messages|, list)
    requires forall o :: o in names <==>
             exists i :: 0 <= i < |messages| && report(messages[i]).Some? && name(report(messages[i]).value) == o
    ensures (set f | f in list :: name(f)) == names
    ensures list != [] <==> exists i :: 0 <= i < |messages| && report(messages[i]).Some?
  {
    forall f | f in list ensures name(f) in names {
      var i :| 0 <= i < |messages| && report(messages[i]) == Some(f);
    }
    forall o | o in names ensures exists f :: f in list && name(f) == o {
      var i :| 0 <= i < |messages| && report(messages[i]).Some? && name(report(messages[i]).value) == o;
      assert report(messages[i]).value in list;
    }
    if list != [] {
      assert list[0] in list;
      var i :| 0 <= i < |messages| && report(messages[i]) == Some(list[0]);
    }
  }

  lemma GateOsvs(str: Json -> string, messages: seq<Json>, findings: seq<Finding>)
    requires Holds(Reported(str), messages, |messages|, findings)
    ensures (set f | f in findings :: f.osv) == Osvs(str, messages)
    ensures findings != [] <==> SomeFinding(messages)
  {
    var report := Reported(str);
    forall i | 0 <= i < |messages|
      ensures report(messages[i]).Some? <==> SymbolLevel(messages[i])
      ensures report(messages[i]).Some? ==> report(messages[i]).value.osv == Osv(str, Get(messages[i], "finding"))
    {}
    NamesOf(report, (f: Finding) => f.osv, messages, findings, Osvs(str, messages));
  }

  /** The verifier's part that looks at the report: it accepts, or names the findings. */
  method VerifyReport(scan: Scanner, str: Json -> string, raw: string) returns (accepted: bool, osvs: set<string>)
    requires Advances(scan)
    ensures accepted <==> Decoded(scan, raw).Messages? && !SomeFinding(Decoded(scan, raw).messages)
    ensures Decoded(scan, raw).Messages? ==> osvs == Osvs(str, Decoded(scan, raw).messages)
  {
    osvs := {};
    var decoded := VerifierDecode(scan, raw);
    if !decoded.Messages? {
      return false, {};
    }
    var reachable := VerifierFindings(decoded.messages);
    osvs := set f | f in reachable :: Osv(str, f);
    VerifierOsvs(str, decoded.messages, reachable);
    accepted := reachable == [];
  }

  lemma VerifierOsvs(str: Json -> string, messages: seq<Json>, reachable: seq<Json>)
    requires Holds(RawFinding(), messages, |messages|, reachable)
    ensures (set f | f in reachable :: Osv(str, f)) == Osvs(str, messages)
    ensures reachable != [] <==> SomeFinding(messages)
  {
    var report := RawFinding();
    forall i | 0 <= i < |messages|
      ensures report(messages[i]).Some? <==> SymbolLevel(messages[i])
      ensures report(messages[i]).Some? ==> report(messages[i]).value == Get(messages[i], "finding")
    {}
    NamesOf(report, f => Osv(str, f), messages, reachable, Osvs(str, messages));
  }

  /** The two programs agree on every text: the verifier accepts exactly when the gate exits with
      zero, and on every readable stream both name the same identifiers. */
  method GatesAgree(scan: Scanner, str: Json -> string, raw: string)
      returns (code: int, named: set<string>, accepted: bool, verified: set<string>)
    requires Advances(scan)
    ensures accepted <==> code == 0
    ensures code != 2 ==> named == verified
  {
    code, named := Gate(scan, str, raw);
    accepted, verified := VerifyReport(scan, str, raw);
  }
}
