/** The canonical key of a label set, and the decoder that shows nothing is lost in it. */
module LabelKey {
  import opened Text
  import opened Collections
  import opened StringOrder

  // ---------------------------------------------------------------- hexadecimal

  function HexDigit(n: nat): char
    requires n < 16
  {
    if n < 10 then '0' + n as char else 'a' + (n - 10) as char
  }

  function HexValue(c: char): nat {
    if '0' <= c <= '9' then (c as int) - ('0' as int)
    else if 'a' <= c <= 'f' then (c as int) - ('a' as int) + 10
    else 0
  }

  function Pow16(width: nat): nat {
    if width == 0 then 1 else 16 * Pow16(width - 1)
  }

  function ToHex(n: nat, width: nat): (s: string)
    ensures |s| == width
  {
    if width == 0 then "" else ToHex(n / 16, width - 1) + [HexDigit(n % 16)]
  }

  function FromHex(s: string): nat {
    if s == "" then 0 else FromHex(s[..|s| - 1]) * 16 + HexValue(s[|s| - 1])
  }

  lemma {:induction false} HexRoundTrip(n: nat, width: nat)
    requires n < Pow16(width)
    ensures FromHex(ToHex(n, width)) == n
  {
    if width > 0 {
      HexRoundTrip(n / 16, width - 1);
      var s := ToHex(n, width);
      assert s[..|s| - 1] == ToHex(n / 16, width - 1);
      assert HexValue(HexDigit(n % 16)) == n % 16;
    }
  }

  // ---------------------------------------------------------------- quoting

  /** The letter of a control character with an escape of its own. */
  function Short(c: char): Option<char> {
    match c as int
    case 7 => Some('a')
    case 8 => Some('b')
    case 12 => Some('f')
    case 10 => Some('n')
    case 13 => Some('r')
    case 9 => Some('t')
    case 11 => Some('v')
    case _ => None
  }

  function FromShort(l: char): Option<char> {
    match l
    case 'a' => Some(7 as char)
    case 'b' => Some(8 as char)
    case 'f' => Some(12 as char)
    case 'n' => Some(10 as char)
    case 'r' => Some(13 as char)
    case 't' => Some(9 as char)
    case 'v' => Some(11 as char)
    case _ => None
  }

  /** One rune inside double quotes; `printable` is Go's notion of a printable rune. */
  function EscapeRune(printable: char -> bool, c: char): (s: string)
    ensures s != "" && s[0] != '"'
  {
    var n := c as int;
    if c == '"' || c == '\\' then ['\\', c]
    else if printable(c) then [c]
    else if Short(c).Some? then ['\\', Short(c).value]
    else if n < 0x20 || n == 0x7f then ['\\', 'x'] + ToHex(n, 2)
    else if n < 0x10000 then ['\\', 'u'] + ToHex(n, 4)
    else ['\\', 'U'] + ToHex(n, 8)
  }

  function Escape(printable: char -> bool, v: string): string {
    if v == "" then "" else EscapeRune(printable, v[0]) + Escape(printable, v[1..])
  }

  function Quote(printable: char -> bool, v: string): string {
    ['"'] + Escape(printable, v) + ['"']
  }

  /** Rune of a code point; not every number is one. */
  function Rune(n: nat): Option<char> {
    if n < 0xD800 || 0xE000 <= n < 0x11_0000 then Some(n as char) else None
  }

  function ReadHex(s: string, width: nat): Option<(char, string)> {
    if |s| < 2 + width then None
    else
      match Rune(FromHex(s[2..2 + width]))
      case None => None
      case Some(c) => Some((c, s[2 + width..]))
  }

  /** Reads back one escaped rune. */
  function ReadRune(s: string): (r: Option<(char, string)>)
    requires s != ""
    ensures r.Some? ==> |r.value.1| < |s|
  {
    if s[0] != '\\' then Some((s[0], s[1..]))
    else if |s| == 1 then None
    else if s[1] == '"' || s[1] == '\\' then Some((s[1], s[2..]))
    else if s[1] == 'x' then ReadHex(s, 2)
    else if s[1] == 'u' then ReadHex(s, 4)
    else if s[1] == 'U' then ReadHex(s, 8)
    else
      match FromShort(s[1])
      case None => None
      case Some(c) => Some((c, s[2..]))
  }

  /** Reads up to the closing quote. */
  function ReadQuoted(s: string): (r: Option<(string, string)>)
    ensures r.Some? ==> |r.value.1| < |s|
    decreases |s|
  {
    if s == "" then None
    else if s[0] == '"' then Some(("", s[1..]))
    else
      match ReadRune(s)
      case None => None
      case Some((c, rest)) =>
        match ReadQuoted(rest)
        case None => None
        case Some((v, tail)) => Some(([c] + v, tail))
  }

  lemma HexEscape(c: char, letter: char, width: nat, rest: string)
    requires c as int < Pow16(width)
    ensures ReadHex(['\\', letter] + ToHex(c as int, width) + rest, width) == Some((c, rest))
  {
    var s := ['\\', letter] + ToHex(c as int, width) + rest;
    assert s[2..2 + width] == ToHex(c as int, width);
    assert s[2 + width..] == rest;
    HexRoundTrip(c as int, width);
    assert Rune(c as int) == Some(c);
  }

  lemma Powers()
    ensures Pow16(2) == 0x100 && Pow16(4) == 0x1_0000 && Pow16(8) == 0x1_0000_0000
  {
    assert Pow16(3) == 0x1000 && Pow16(5) == 0x10_0000 && Pow16(6) == 0x100_0000 && Pow16(7) == 0x1000_0000;
  }

  lemma RuneRoundTrip(printable: char -> bool, c: char, rest: string)
    ensures ReadRune(EscapeRune(printable, c) + rest) == Some((c, rest))
  {
    var n := c as int;
    var s := EscapeRune(printable, c) + rest;
    Powers();
    if c == '"' || c == '\\' {
      assert s[2..] == rest;
    } else if printable(c) {
      assert s[1..] == rest;
    } else if Short(c).Some? {
      assert FromShort(Short(c).value) == Some(c);
      assert s[2..] == rest;
    } else if n < 0x20 || n == 0x7f {
      HexEscape(c, 'x', 2, rest);
    } else if n < 0x10000 {
      HexEscape(c, 'u', 4, rest);
    } else {
      HexEscape(c, 'U', 8, rest);
    }
  }

  /** How a rune is written: quotes and backslashes behind a backslash, other printable runes as they
      are, and the seven control characters by their letters. */
  lemma EscapeTable(printable: char -> bool, c: char)
    ensures EscapeRune(printable, '"') == "\\\"" && EscapeRune(printable, '\\') == "\\\\"
    ensures printable(c) && c != '"' && c != '\\' ==> EscapeRune(printable, c) == [c]
    ensures !printable(7 as char) ==> EscapeRune(printable, 7 as char) == "\\a"
    ensures !printable(8 as char) ==> EscapeRune(printable, 8 as char) == "\\b"
    ensures !printable(9 as char) ==> EscapeRune(printable, 9 as char) == "\\t"
    ensures !printable(10 as char) ==> EscapeRune(printable, 10 as char) == "\\n"
    ensures !printable(11 as char) ==> EscapeRune(printable, 11 as char) == "\\v"
    ensures !printable(12 as char) ==> EscapeRune(printable, 12 as char) == "\\f"
    ensures !printable(13 as char) ==> EscapeRune(printable, 13 as char) == "\\r"
  {}

  /** A value of printable runes without quotes and backslashes is written as it is. */
  lemma {:induction false} PlainIsVerbatim(printable: char -> bool, v: string)
    requires forall i :: 0 <= i < |v| ==> printable(v[i]) && v[i] != '"' && v[i] != '\\'
    ensures Quote(printable, v) == ['"'] + v + ['"']
  {
    if v != "" {
      PlainIsVerbatim(printable, v[1..]);
      var more := Escape(printable, v[1..]);
      assert more == v[1..] by {
        assert (['"'] + more + ['"'])[1..|more| + 1] == more;
        assert (['"'] + v[1..] + ['"'])[1..|more| + 1] == v[1..];
      }
      assert v == [v[0]] + v[1..];
    }
  }

  lemma EscapeHead(printable: char -> bool, v: string, rest: string)
    requires v != ""
    ensures Escape(printable, v) + ['"'] + rest ==
              EscapeRune(printable, v[0]) + (Escape(printable, v[1..]) + ['"'] + rest)
  {}

  lemma ReadStep(s: string, c: char, tail: string, v: string, rest: string)
    requires s != "" && s[0] != '"' && ReadRune(s) == Some((c, tail)) && ReadQuoted(tail) == Some((v, rest))
    ensures ReadQuoted(s) == Some(([c] + v, rest))
  {}

  /** Whatever the value holds, quotes and commas included, reading stops exactly at its end. */
  lemma {:induction false} QuotedRoundTrip(printable: char -> bool, v: string, rest: string)
    ensures ReadQuoted(Escape(printable, v) + ['"'] + rest) == Some((v, rest))
  {
    if v == "" {
      assert Escape(printable, v) + ['"'] + rest == ['"'] + rest;
    } else {
      var tail := Escape(printable, v[1..]) + ['"'] + rest;
      EscapeHead(printable, v, rest);
      RuneRoundTrip(printable, v[0], tail);
      QuotedRoundTrip(printable, v[1..], rest);
      ReadStep(EscapeRune(printable, v[0]) + tail, v[0], tail, v[1..], rest);
      assert v == [v[0]] + v[1..];
    }
  }

  // ---------------------------------------------------------------- keys

  type Labels = map<string, string>

  function Render(printable: char -> bool, names: seq<string>, labels: Labels): string
    requires forall n :: n in names ==> n in labels
  {
    if names == [] then ""
    else
      var first := names[0] + ['='] + Quote(printable, labels[names[0]]);
      if |names| == 1 then first else first + [','] + Render(printable, names[1..], labels)
  }

  /** The key: the labels in name order. */
  ghost function Key(printable: char -> bool, labels: Labels): string {
    Render(printable, Listing(labels.Keys), labels)
  }

  lemma {:induction false} RenderSnoc(printable: char -> bool, names: seq<string>, last: string, labels: Labels)
    requires names != [] && forall n :: n in names + [last] ==> n in labels
    ensures forall n :: n in names ==> n in labels
    ensures Render(printable, names + [last], labels) ==
              Render(printable, names, labels) + [','] + last + ['='] + Quote(printable, labels[last])
  {
    forall n | n in names ensures n in labels {
      assert n in names + [last];
    }
    assert (names + [last])[1..] == names[1..] + [last];
    if |names| == 1 {
      assert names[1..] + [last] == [last];
      Glue(Render(printable, names, labels), "", last, Quote(printable, labels[last]));
    } else {
      RenderSnoc(printable, names[1..], last, labels);
      Glue(names[0] + ['='] + Quote(printable, labels[names[0]]) + [','],
           Render(printable, names[1..], labels) + [','], last, Quote(printable, labels[last]));
      Glue2(names[0] + ['='] + Quote(printable, labels[names[0]]), Render(printable, names[1..], labels));
    }
  }

  lemma Glue(a: string, b: string, name: string, quoted: string)
    ensures a + (b + name + ['='] + quoted) == a + b + name + ['='] + quoted
    ensures a + [','] + (name + ['='] + quoted) == a + [','] + name + ['='] + quoted
  {}

  lemma Assoc(a: string, b: string)
    ensures a + ([','] + b) == a + [','] + b
  {}

  lemma Glue2(a: string, b: string)
    ensures a + [','] + (b + [',']) == a + [','] + b + [',']
  {}

  /** One turn of the loop that builds the key. */
  lemma RenderNext(printable: char -> bool, names: seq<string>, i: nat, labels: Labels)
    requires i < |names| && forall n :: n in names ==> n in labels
    ensures (forall n :: n in names[..i] ==> n in labels) && (forall n :: n in names[..i + 1] ==> n in labels)
    ensures Render(printable, names[..i + 1], labels) ==
              (if i > 0 then Render(printable, names[..i], labels) + [','] else "") + names[i] + ['='] +
                Quote(printable, labels[names[i]])
  {
    assert names[..i + 1] == names[..i] + [names[i]];
    if i > 0 {
      RenderSnoc(printable, names[..i], names[i], labels);
    } else {
      assert names[..1] == [names[0]];
    }
  }

  /** Builds the key from the names in whatever order the map yields them. */
  method LabelsKey(printable: char -> bool, labels: Labels, order: seq<string>) returns (key: string)
    requires Distinct(order)
    requires forall n :: n in order <==> n in labels
    ensures key == Key(printable, labels)
  {
    if |labels| == 0 {
      assert labels.Keys == {};
      return "";
    }
    var names := Sort(order);
    ListingIsUnique(names, Listing(labels.Keys));
    key := BuildKey(printable, labels, names);
  }

  /** The loop over the sorted names. */
  method BuildKey(printable: char -> bool, labels: Labels, names: seq<string>) returns (key: string)
    requires forall n :: n in names ==> n in labels
    ensures key == Render(printable, names, labels)
  {
    key := "";
    for i := 0 to |names|
      invariant forall n :: n in names[..i] ==> n in labels
      invariant key == Render(printable, names[..i], labels)
    {
      RenderNext(printable, names, i, labels);
      if i > 0 {
        key := key + [','];
      }
      key := key + names[i];
      key := key + ['='];
      key := key + Quote(printable, labels[names[i]]);
    }
    assert names[..|names|] == names;
  }

  // ---------------------------------------------------------------- decoding

  /** A value opens here: an equals sign and a double quote. */
  predicate Opens(s: string) {
    |s| >= 2 && s[0] == '=' && s[1] == '"'
  }

  /** Nothing inside the name looks like the start of a value. */
  predicate Plain(name: string) {
    forall i :: 0 <= i < |name| ==> !Opens(name[i..])
  }

  predicate PlainNames(labels: Labels) {
    forall n :: n in labels ==> Plain(n)
  }

  lemma NoEqualsIsPlain(name: string)
    requires '=' !in name
    ensures Plain(name)
  {
    forall i | 0 <= i < |name| ensures !Opens(name[i..]) {
      assert name[i..][0] == name[i] && name[i] in name;
    }
  }

  function Pairs(names: seq<string>, labels: Labels): seq<(string, string)>
    requires forall n :: n in names ==> n in labels
  {
    seq(|names|, i requires 0 <= i < |names| => (names[i], labels[names[i]]))
  }

  /** Where the first value opens, or the length. */
  function ValueStart(s: string): (n: nat)
    ensures n <= |s|
    ensures n < |s| ==> Opens(s[n..])
  {
    if s == "" || Opens(s) then 0
    else
      var m := ValueStart(s[1..]);
      assert s[1..][m..] == s[1 + m..];
      1 + m
  }

  /** Reads a key back into its labels. */
  function Decode(s: string): Option<seq<(string, string)>>
    decreases |s|
  {
    var n := ValueStart(s);
    if n == |s| then None
    else
      assert Opens(s[n..]);
      match ReadQuoted(s[n + 2..])
      case None => None
      case Some((v, rest)) =>
        if rest == "" then Some([(s[..n], v)])
        else if rest[0] != ',' then None
        else
          match Decode(rest[1..])
          case None => None
          case Some(more) => Some([(s[..n], v)] + more)
  }

  lemma {:induction false} NameEnds(name: string, rest: string)
    requires Plain(name)
    ensures ValueStart(name + (['=', '"'] + rest)) == |name|
  {
    var s := name + (['=', '"'] + rest);
    if name == "" {
      assert s == ['=', '"'] + rest && Opens(s);
    } else {
      assert name[0..] == name && !Opens(name);
      assert s[0] == name[0] && s[1] == if |name| > 1 then name[1] else '=';
      assert s[1..] == name[1..] + (['=', '"'] + rest);
      assert forall i :: 0 <= i < |name[1..]| ==> name[1..][i..] == name[i + 1..];
      NameEnds(name[1..], rest);
    }
  }

  lemma EntryRoundTrip(printable: char -> bool, name: string, v: string, more: string)
    requires Plain(name)
    ensures var s := name + ['='] + Quote(printable, v) + more;
            ValueStart(s) == |name| && |name| + 2 <= |s| && s[..|name|] == name &&
            ReadQuoted(s[|name| + 2..]) == Some((v, more))
  {
    var escaped := Escape(printable, v);
    EntryParts(name, escaped, more);
    NameEnds(name, escaped + ['"'] + more);
    QuotedRoundTrip(printable, v, more);
  }

  lemma EntryParts(name: string, escaped: string, more: string)
    ensures var s, rest := name + ['='] + (['"'] + escaped + ['"']) + more, escaped + ['"'] + more;
            s == name + (['=', '"'] + rest) && s[..|name|] == name && s[|name| + 2..] == rest
  {
    var s, rest := name + ['='] + (['"'] + escaped + ['"']) + more, escaped + ['"'] + more;
    assert s == name + (['=', '"'] + rest);
  }

  lemma DecodeEntry(s: string, name: string, v: string, more: string)
    requires ValueStart(s) == |name| && |name| + 2 <= |s| && s[..|name|] == name
    requires ReadQuoted(s[|name| + 2..]) == Some((v, more))
    ensures more == "" ==> Decode(s) == Some([(name, v)])
    ensures more != "" && more[0] == ',' && Decode(more[1..]).Some? ==>
              Decode(s) == Some([(name, v)] + Decode(more[1..]).value)
  {}

  lemma PairsCons(names: seq<string>, labels: Labels)
    requires names != [] && forall n :: n in names ==> n in labels
    ensures Pairs(names, labels) == [(names[0], labels[names[0]])] + Pairs(names[1..], labels)
  {}

  lemma {:induction false} DecodeOfRender(printable: char -> bool, names: seq<string>, labels: Labels)
    requires names != [] && forall n :: n in names ==> n in labels && Plain(n)
    ensures Decode(Render(printable, names, labels)) == Some(Pairs(names, labels))
  {
    var name, v := names[0], labels[names[0]];
    if |names| == 1 {
      EntryRoundTrip(printable, name, v, "");
      assert name + ['='] + Quote(printable, v) + "" == Render(printable, names, labels);
      DecodeEntry(Render(printable, names, labels), name, v, "");
      assert Pairs(names, labels) == [(name, v)];
    } else {
      var more := [','] + Render(printable, names[1..], labels);
      EntryRoundTrip(printable, name, v, more);
      Assoc(name + ['='] + Quote(printable, v), Render(printable, names[1..], labels));
      DecodeEntry(Render(printable, names, labels), name, v, more);
      assert more[1..] == Render(printable, names[1..], labels);
      DecodeOfRender(printable, names[1..], labels);
      PairsCons(names, labels);
    }
  }

  lemma {:induction false} PairsDetermine(names: seq<string>, other: seq<string>, a: Labels, b: Labels)
    requires (forall n :: n in names <==> n in a) && (forall n :: n in other <==> n in b)
    requires Pairs(names, a) == Pairs(other, b)
    ensures a == b
  {
    assert |names| == |Pairs(names, a)| == |other|;
    forall i | 0 <= i < |names| ensures names[i] == other[i] && a[names[i]] == b[other[i]] {
      assert Pairs(names, a)[i] == Pairs(other, b)[i];
    }
    assert names == other;
    forall n | n in a ensures n in b && a[n] == b[n] {
      var i :| 0 <= i < |names| && names[i] == n;
      assert other[i] in other;
    }
    forall n | n in b ensures n in a {
      assert n in other;
    }
  }

  lemma KeyOfNothing(printable: char -> bool, labels: Labels)
    ensures Key(printable, labels) == "" <==> labels == map[]
  {
    var names := Listing(labels.Keys);
    HasMember(names);
    if labels == map[] {
      assert names == [];
    } else {
      var n :| n in labels.Keys;
      assert n in names;
    }
  }

  /** Main result: keys are equal exactly when the label sets are, whatever the values hold, as
      long as no label name has an equals sign directly followed by a double quote. Distinct series
      are never merged. */
  lemma KeysAreEqualIff(printable: char -> bool, a: Labels, b: Labels)
    requires PlainNames(a) && PlainNames(b)
    ensures Key(printable, a) == Key(printable, b) <==> a == b
  {
    if Key(printable, a) == Key(printable, b) {
      KeyOfNothing(printable, a);
      KeyOfNothing(printable, b);
      if a != map[] {
        var x, y := Listing(a.Keys), Listing(b.Keys);
        DecodeOfRender(printable, x, a);
        DecodeOfRender(printable, y, b);
        PairsDetermine(x, y, a, b);
      }
    }
  }

  /** Some condition on names is needed: every set of two or more labels has the key of a single label,
      whose name is all that is rendered before the last value. */
  lemma EqualsSignCollides(printable: char -> bool, labels: Labels) returns (name: string, value: string)
    requires |labels| >= 2
    ensures labels != map[name := value] && Key(printable, map[name := value]) == Key(printable, labels)
    ensures PlainNames(labels) ==> !Plain(name)
  {
    var names := Listing(labels.Keys);
    ListingIsLong(labels.Keys);
    var k := |names| - 1;
    var before, last := names[..k], names[k];
    assert names == before + [last] && last in names;
    RenderSnoc(printable, before, last, labels);
    name, value := Render(printable, before, labels) + [','] + last, labels[last];
    KeyOfOne(printable, name, value);
    NotPlain(printable, labels, name, value);
  }

  lemma NotPlain(printable: char -> bool, labels: Labels, name: string, value: string)
    requires |labels| >= 2 && Key(printable, map[name := value]) == Key(printable, labels)
    ensures labels != map[name := value] && (PlainNames(labels) ==> !Plain(name))
  {
    var one: Labels := map[name := value];
    assert |one| == 1;
    if PlainNames(labels) && Plain(name) {
      KeysAreEqualIff(printable, one, labels);
    }
  }

  lemma ListingIsLong(s: set<string>)
    ensures |Listing(s)| >= |s|
  {
    var names := Listing(s);
    SequenceCovers(names, s);
  }

  lemma KeyOfOne(printable: char -> bool, name: string, y: string)
    ensures Key(printable, map[name := y]) == name + ['='] + Quote(printable, y)
  {
    var one: Labels := map[name := y];
    assert Ascending([name]);
    ListingIsUnique(Listing(one.Keys), [name]);
  }
}
