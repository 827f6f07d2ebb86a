/** The text of version tags, `ver/STREAM...OP VERSION`: parsing, printing, and the round trips. */
module TagSyntax {
  import opened Wrappers
  import opened Text
  import opened VersionOrder
  import opened VersionTags

  datatype ParseError = NoVerPrefix | NotCandidate | NoOperator | NotAVersion

  datatype VerTag = VerTag(stream: seq<string>, op: Op, ver: Version)

  /** The characters a stream component may hold. */
  predicate PartChar(c: char) {
    c != '/' && c != '-' && c != '+' && c != '='
  }

  predicate IsPart(s: string) {
    s != [] && forall i :: 0 <= i < |s| ==> PartChar(s[i])
  }

  /** What a tag can say: a bare "+" or "-", or any operator with a version. */
  predicate WellFormed(t: VerTag) {
    (forall p :: p in t.stream ==> IsPart(p)) && (t.ver == [] ==> !t.op.Inclusive())
  }

  // ----- Printing -----

  function PrintOp(op: Op): (s: string)
  {
    match op
    case Lt => "-"
    case Le => "-="
    case Ge => "+="
    case Gt => "+"
  }

  function Numbers(v: Version): (r: seq<string>)
    ensures |r| == |v| && forall i :: 0 <= i < |v| ==> r[i] == PrintNat(v[i])
  {
    seq(|v|, i requires 0 <= i < |v| => PrintNat(v[i]))
  }

  function PrintStream(stream: seq<string>): string {
    if stream == [] then "" else "/" + stream[0] + PrintStream(stream[1..])
  }

  function PrintTag(t: VerTag): string {
    "ver" + PrintStream(t.stream) + PrintOp(t.op) + Join(Numbers(t.ver), '.')
  }

  // ----- Parsing -----

  /** The version text before an optional final newline, which the source's pattern lets through. */
  function Body(s: string): string {
    if s != [] && s[|s|-1] == '\n' then s[..|s|-1] else s
  }

  predicate VersionChars(s: string) {
    s != [] && forall i :: 0 <= i < |s| ==> IsDigit(s[i]) || s[i] == '.'
  }

  function ParseVersion(s: string): Result<Version, ParseError> {
    var parts := Split(Body(s), '.');
    if VersionChars(Body(s)) && forall p :: p in parts ==> IsNumeric(p)
    then Ok(seq(|parts|, i requires 0 <= i < |parts| => assert parts[i] in parts; ParseNat(parts[i])))
    else Err(NotAVersion)
  }

  function ParseOpAndVersion(s: string): Result<(Op, Version), ParseError> {
    if s == "-" then Ok((Lt, []))
    else if s == "+" then Ok((Gt, []))
    else if s == [] || (s[0] != '+' && s[0] != '-') then Err(NoOperator)
    else
      var inclusive := |s| > 1 && s[1] == '=';
      var op := if s[0] == '+' then if inclusive then Ge else Gt else if inclusive then Le else Lt;
      match ParseVersion(s[|PrintOp(op)|..])
      case Ok(ver) => Ok((op, ver))
      case Err(e) => Err(e)
  }

  function TestVersionTagParse(tag: string, candidate: string): Result<(Op, Version), ParseError> {
    if candidate <= tag then ParseOpAndVersion(tag[|candidate|..]) else Err(NotCandidate)
  }

  /** The length of the leading run of component characters. */
  function PartLength(s: string): (n: nat)
    ensures n <= |s| && forall i :: 0 <= i < n ==> PartChar(s[i])
    ensures n < |s| ==> !PartChar(s[n])
  {
    if s == [] || !PartChar(s[0]) then 0 else 1 + PartLength(s[1..])
  }

  function StreamOf(v: string): (r: (seq<string>, string))
    ensures forall p :: p in r.0 ==> IsPart(p)
  {
    if v == [] || v[0] != '/' || PartLength(v[1..]) == 0 then ([], v)
    else
      var k := PartLength(v[1..]);
      var (stream, rest) := StreamOf(v[k+1..]);
      ([v[1..k+1]] + stream, rest)
  }

  ghost function ParsedVer(tag: string): Result<VerTag, ParseError> {
    if !("ver" <= tag) then Err(NoVerPrefix)
    else
      var (stream, rest) := StreamOf(tag[3..]);
      match ParseOpAndVersion(rest)
      case Ok((op, ver)) => Ok(VerTag(stream, op, ver))
      case Err(e) => Err(e)
  }

  lemma HeadSplits(v: string, k: nat)
    requires v != [] && v[0] == '/' && k < |v|
    ensures "/" + v[1..k+1] + v[k+1..] == v
  {
    assert v[..1] == "/" && v[1..] == v[1..k+1] + v[k+1..] && v == v[..1] + v[1..];
  }

  lemma {:induction false} StreamOfPrints(v: string)
    ensures v == PrintStream(StreamOf(v).0) + StreamOf(v).1
  {
    if v != [] && v[0] == '/' && PartLength(v[1..]) != 0 {
      var k := PartLength(v[1..]);
      var p, tail := v[1..k+1], v[k+1..];
      var stream := [p] + StreamOf(tail).0;
      StreamOfPrints(tail);
      HeadSplits(v, k);
      assert stream[0] == p && stream[1..] == StreamOf(tail).0;
      PrintStreamStep(stream, StreamOf(tail).1);
      assert StreamOf(v) == (stream, StreamOf(tail).1);
    }
  }

  lemma {:induction false} JoinStream(head: string, stream: seq<string>)
    ensures Join([head] + stream, '/') == head + PrintStream(stream)
    decreases |stream|
  {
    if stream == [] {
    } else {
      JoinStream(stream[0], stream[1..]);
      assert ([head] + stream)[1..] == [stream[0]] + stream[1..];
      assert Join([head] + stream, '/') == head + ['/'] + (stream[0] + PrintStream(stream[1..]));
      assert PrintStream(stream) == "/" + stream[0] + PrintStream(stream[1..]);
      Regroup("/", stream[0], PrintStream(stream[1..]));
      Regroup(head, "/", stream[0] + PrintStream(stream[1..]));
    }
  }

  method ParseStream(text: string) returns (stream: seq<string>, v: string)
    ensures (stream, v) == StreamOf(text)
  {
    stream, v := [], text;
    assert stream + StreamOf(v).0 == StreamOf(v).0;
    while v != [] && v[0] == '/' && PartLength(v[1..]) != 0
      invariant StreamOf(text) == (stream + StreamOf(v).0, StreamOf(v).1)
      decreases |v|
    {
      var k := PartLength(v[1..]);
      var rest := StreamOf(v[k+1..]).0;
      assert StreamOf(v).0 == [v[1..k+1]] + rest;
      assert stream + ([v[1..k+1]] + rest) == stream + [v[1..k+1]] + rest;
      stream := stream + [v[1..k+1]];
      v := v[k+1..];
    }
    assert stream + [] == stream;
  }

  lemma CandidateOf(v: string)
    ensures Join(["ver"] + StreamOf(v).0, '/') + StreamOf(v).1 == "ver" + v
  {
    StreamOfPrints(v);
    JoinStream("ver", StreamOf(v).0);
    Regroup("ver", PrintStream(StreamOf(v).0), StreamOf(v).1);
  }

  method TestVersionTagParseVer(tag: string) returns (r: Result<VerTag, ParseError>)
    ensures r == ParsedVer(tag)
  {
    if !("ver" <= tag) {
      return Err(NoVerPrefix);
    }
    var stream, rest := ParseStream(tag[3..]);
    var candidate := Join(["ver"] + stream, '/');
    CandidateOf(tag[3..]);
    assert tag == "ver" + tag[3..] == candidate + rest;
    match TestVersionTagParse(tag, candidate)
    case Ok((op, ver)) => r := Ok(VerTag(stream, op, ver));
    case Err(e) => r := Err(e);
  }

  // ----- Round trips -----

  lemma {:induction false} PartLengthStops(p: string, s: string)
    requires (forall i :: 0 <= i < |p| ==> PartChar(p[i])) && (s == [] || !PartChar(s[0]))
    ensures PartLength(p + s) == |p|
  {
    if p == [] {
      assert p + s == s;
    } else {
      PartLengthStops(p[1..], s);
      assert (p + s)[1..] == p[1..] + s;
    }
  }

  lemma StreamOfPart(p: string, tail: string)
    requires IsPart(p) && tail != [] && !PartChar(tail[0])
    ensures StreamOf("/" + p + tail) == ([p] + StreamOf(tail).0, StreamOf(tail).1)
  {
    var v := "/" + p + tail;
    PartLengthStops(p, tail);
    assert v[1..] == p + tail && v[1..|p|+1] == p && v[|p|+1..] == tail;
  }

  lemma PrintStreamHead(stream: seq<string>, rest: string)
    requires rest != [] && !PartChar(rest[0])
    ensures var tail := PrintStream(stream) + rest; tail != [] && !PartChar(tail[0])
  {
    if stream != [] {
      assert PrintStream(stream)[0] == '/';
    } else {
      assert PrintStream(stream) + rest == rest;
    }
  }

  lemma PrintStreamStep(stream: seq<string>, rest: string)
    requires stream != []
    ensures PrintStream(stream) + rest == "/" + stream[0] + (PrintStream(stream[1..]) + rest)
  {
    Regroup("/" + stream[0], PrintStream(stream[1..]), rest);
  }

  lemma StreamCons(p: string, stream: seq<string>, rest: string)
    requires IsPart(p) && rest != [] && !PartChar(rest[0])
    requires StreamOf(PrintStream(stream) + rest) == (stream, rest)
    ensures StreamOf("/" + p + (PrintStream(stream) + rest)) == ([p] + stream, rest)
  {
    PrintStreamHead(stream, rest);
    StreamOfPart(p, PrintStream(stream) + rest);
  }

  lemma {:induction false} StreamRoundTrip(stream: seq<string>, rest: string)
    requires forall p :: p in stream ==> IsPart(p)
    requires rest != [] && (rest[0] == '+' || rest[0] == '-')
    ensures StreamOf(PrintStream(stream) + rest) == (stream, rest)
  {
    if stream == [] {
      assert PrintStream(stream) + rest == rest;
    } else {
      var p, tail := stream[0], stream[1..];
      assert p in stream && stream == [p] + tail;
      StreamRoundTrip(tail, rest);
      StreamCons(p, tail, rest);
      PrintStreamStep(stream, rest);
    }
  }

  lemma {:induction false} JoinChars(parts: seq<string>)
    requires parts != [] && forall p :: p in parts ==> IsNumeric(p)
    ensures VersionChars(Join(parts, '.'))
  {
    assert parts[0] in parts;
    if |parts| > 1 {
      JoinChars(parts[1..]);
    }
  }

  lemma VersionRoundTrip(v: Version)
    requires v != []
    ensures ParseVersion(Join(Numbers(v), '.')) == Ok(v)
  {
    var parts := Numbers(v);
    forall p | p in parts ensures IsNumeric(p) && '.' !in p {
      assert forall i :: 0 <= i < |p| ==> IsDigit(p[i]);
    }
    JoinChars(parts);
    SplitJoin(parts, '.');
    var s := Join(parts, '.');
    assert Body(s) == s;
    forall i | 0 <= i < |v| ensures ParseNat(parts[i]) == v[i] { ParsePrintNat(v[i]); }
    assert seq(|parts|, i requires 0 <= i < |parts| => ParseNat(parts[i])) == v;
  }

  lemma OpRoundTrip(op: Op, ver: Version)
    requires ver == [] ==> !op.Inclusive()
    ensures ParseOpAndVersion(PrintOp(op) + Join(Numbers(ver), '.')) == Ok((op, ver))
  {
    var text := Join(Numbers(ver), '.');
    var s := PrintOp(op) + text;
    if ver == [] {
      assert s == PrintOp(op);
    } else {
      VersionRoundTrip(ver);
      JoinChars(Numbers(ver));
      assert s[|PrintOp(op)|..] == text;
      assert s[0] == PrintOp(op)[0];
      assert s[1] == if op.Inclusive() then '=' else text[0];
      assert s[1] == '=' <==> op.Inclusive();
      assert |s| > |PrintOp(op)|;
    }
  }

  lemma DropVer(a: string, b: string, c: string)
    ensures "ver" <= "ver" + a + b + c && ("ver" + a + b + c)[3..] == a + (b + c)
  {
    assert "ver" + a + b + c == "ver" + (a + (b + c));
  }

  /** Parsing undoes printing, for every tag that can be written. */
  lemma ParseAfterPrint(t: VerTag)
    requires WellFormed(t)
    ensures ParsedVer(PrintTag(t)) == Ok(t)
  {
    var rest := PrintOp(t.op) + Join(Numbers(t.ver), '.');
    StreamRoundTrip(t.stream, rest);
    OpRoundTrip(t.op, t.ver);
    DropVer(PrintStream(t.stream), PrintOp(t.op), Join(Numbers(t.ver), '.'));
  }

  /** Every accepted tag is well formed, and printing it again gives a tag that parses to the same. */
  lemma PrintAfterParse(tag: string)
    requires ParsedVer(tag).Ok?
    ensures WellFormed(ParsedVer(tag).value)
    ensures ParsedVer(PrintTag(ParsedVer(tag).value)) == ParsedVer(tag)
  {
    ParseAfterPrint(ParsedVer(tag).value);
  }

  /** Distinct tags print to distinct texts. */
  lemma PrintIsInjective(s: VerTag, t: VerTag)
    requires WellFormed(s) && WellFormed(t) && PrintTag(s) == PrintTag(t)
    ensures s == t
  {
    ParseAfterPrint(s);
    ParseAfterPrint(t);
  }

  // ----- Which texts are accepted -----

  /** Numbers with dots between, and possibly a newline at the end. */
  ghost predicate IsVersionText(text: string, ver: Version) {
    exists core :: (text == core || text == core + "\n") && IsNumbers(core, ver)
  }

  ghost predicate IsNumbers(core: string, ver: Version) {
    var parts := Split(core, '.');
    |parts| == |ver| && forall i :: 0 <= i < |ver| ==> IsNumeric(parts[i]) && ParseNat(parts[i]) == ver[i]
  }

  /** An operator and a version, or a bare "+" or "-". */
  ghost predicate IsOpAndVersion(s: string, op: Op, ver: Version) {
    || (s == "-" && op == Lt && ver == [])
    || (s == "+" && op == Gt && ver == [])
    || exists text :: IsVersionText(text, ver) && s == (match op
                                                         case Lt => "-" + text
                                                         case Le => "-=" + text
                                                         case Ge => "+=" + text
                                                         case Gt => "+" + text)
  }

  lemma NumbersAreChars(core: string, ver: Version)
    requires IsNumbers(core, ver)
    ensures VersionChars(core) && Body(core) == core && Body(core + "\n") == core && core[0] != '='
  {
    var parts := Split(core, '.');
    forall p | p in parts ensures IsNumeric(p) {
      var i :| 0 <= i < |parts| && parts[i] == p;
    }
    JoinChars(parts);
    JoinSplit(core, '.');
  }

  /** The version parser accepts exactly such texts. */
  lemma ParseVersionIff(text: string, ver: Version)
    ensures ParseVersion(text) == Ok(ver) <==> IsVersionText(text, ver)
  {
    if core :| (text == core || text == core + "\n") && IsNumbers(core, ver) {
      NumbersAreChars(core, ver);
      var parts := Split(core, '.');
      forall p | p in parts ensures IsNumeric(p) {
        var i :| 0 <= i < |parts| && parts[i] == p;
      }
      assert ParseVersion(text).value == ver;
    }
    if ParseVersion(text) == Ok(ver) {
      var core := Body(text);
      assert text == core || text == core + "\n";
      forall i | 0 <= i < |ver| ensures IsNumeric(Split(core, '.')[i]) { assert Split(core, '.')[i] in Split(core, '.'); }
      assert IsNumbers(core, ver);
    }
  }

  lemma VersionTextHead(text: string, ver: Version)
    requires IsVersionText(text, ver)
    ensures text != "" && text[0] != '='
  {
    var core :| (text == core || text == core + "\n") && IsNumbers(core, ver);
    NumbersAreChars(core, ver);
  }

  /** An operator before a text that does not start with "=" is read as that operator. */
  lemma OpIsRead(op: Op, text: string, ver: Version)
    requires text != "" && text[0] != '='
    ensures ParseOpAndVersion(PrintOp(op) + text) == Ok((op, ver)) <==> ParseVersion(text) == Ok(ver)
  {
    var s := PrintOp(op) + text;
    assert s[|PrintOp(op)|..] == text && s[0] == PrintOp(op)[0];
    assert s[1] == if op.Inclusive() then '=' else text[0];
    assert |s| > 1;
  }

  lemma OpIsThere(s: string, op: Op, ver: Version)
    requires s != "-" && s != "+" && ParseOpAndVersion(s) == Ok((op, ver))
    ensures |PrintOp(op)| <= |s| && s == PrintOp(op) + s[|PrintOp(op)|..] && ParseVersion(s[|PrintOp(op)|..]) == Ok(ver)
  {
    assert s[..1] == [s[0]] && (|s| > 1 ==> s[..2] == [s[0], s[1]]);
  }

  lemma OpAndVersionIff(s: string, op: Op, ver: Version)
    ensures ParseOpAndVersion(s) == Ok((op, ver)) <==> IsOpAndVersion(s, op, ver)
  {
    if s == "-" || s == "+" {
      if IsOpAndVersion(s, op, ver) { BareIsAlone(s, op, ver); }
    } else {
      if ParseOpAndVersion(s) == Ok((op, ver)) {
        OpIsThere(s, op, ver);
        ParseVersionIff(s[|PrintOp(op)|..], ver);
      }
      forall text | IsVersionText(text, ver) && s == PrintOp(op) + text ensures ParseOpAndVersion(s) == Ok((op, ver)) {
        VersionTextHead(text, ver);
        ParseVersionIff(text, ver);
        OpIsRead(op, text, ver);
      }
    }
  }

  lemma BareIsAlone(s: string, op: Op, ver: Version)
    requires (s == "-" || s == "+") && IsOpAndVersion(s, op, ver)
    ensures ver == [] && op == if s == "-" then Lt else Gt
  {
    forall text | IsVersionText(text, ver) ensures text != "" { VersionTextHead(text, ver); }
  }

  /**
   * A text is read as a tag exactly if it is "ver", each component of the stream after a slash, and
   * then the operator and the version.
   */
  lemma AcceptedIff(tag: string, t: VerTag)
    ensures ParsedVer(tag) == Ok(t) <==>
            (forall p :: p in t.stream ==> IsPart(p))
            && exists rest :: tag == "ver" + PrintStream(t.stream) + rest && IsOpAndVersion(rest, t.op, t.ver)
  {
    if ParsedVer(tag) == Ok(t) {
      var (stream, rest) := StreamOf(tag[3..]);
      StreamOfPrints(tag[3..]);
      OpAndVersionIff(rest, t.op, t.ver);
      assert tag == "ver" + tag[3..];
      Regroup("ver", PrintStream(stream), rest);
    }
    if forall p :: p in t.stream ==> IsPart(p) {
      if rest :| tag == "ver" + PrintStream(t.stream) + rest && IsOpAndVersion(rest, t.op, t.ver) {
        OpAndVersionIff(rest, t.op, t.ver);
        StreamRoundTrip(t.stream, rest);
        DropVer(PrintStream(t.stream), rest, "");
        assert "ver" + PrintStream(t.stream) + rest + "" == tag && rest + "" == rest;
      }
    }
  }

  lemma SplitThree(a: string, b: string, c: string)
    requires '.' !in a && '.' !in b && '.' !in c
    ensures Split(a + "." + (b + "." + c), '.') == [a, b, c]
  {
    SplitAfterPart(a, b + "." + c, '.');
    SplitAfterPart(b, c, '.');
    SplitOnePart(c, '.');
  }

  lemma TwoDigits(s: string)
    requires |s| == 2 && IsDigit(s[0]) && IsDigit(s[1])
    ensures IsNumeric(s) && ParseNat(s) == 10 * DigitValue(s[0]) + DigitValue(s[1])
  {
    assert s[..1] == [s[0]];
  }

  lemma ExampleNumbers(core: string)
    requires core == "1.28.10"
    ensures IsNumbers(core, [1, 28, 10])
  {
    SplitThree("1", "28", "10");
    assert core == "1" + "." + ("28" + "." + "10");
    TwoDigits("28");
    TwoDigits("10");
    assert ParseNat("1") == 1;
  }

  lemma ExampleStream()
    ensures PrintStream(["rhel", "8"]) == "/rhel/8"
  {
    assert ["rhel", "8"][1..] == ["8"] && ["8"][1..] == [];
    assert PrintStream(["8"]) == "/8";
    assert "/" + "rhel" + "/8" == "/rhel/8";
  }

  lemma ReadsAs(stream: seq<string>, core: string, ver: Version)
    requires (forall p :: p in stream ==> IsPart(p)) && IsNumbers(core, ver)
    ensures ParsedVer("ver" + PrintStream(stream) + ("+=" + core)) == Ok(VerTag(stream, Ge, ver))
  {
    var rest := "+=" + core;
    assert IsOpAndVersion(rest, Ge, ver) by { assert IsVersionText(core, ver); }
    AcceptedIff("ver" + PrintStream(stream) + rest, VerTag(stream, Ge, ver));
  }

  lemma ExampleText(tag: string, core: string)
    requires tag == "ver/rhel/8+=1.28.10" && core == tag[12..]
    ensures core == "1.28.10" && tag == "ver" + "/rhel/8" + ("+=" + core)
  {
  }

  /** A tag for a stream of two components. */
  lemma ExampleTag(tag: string)
    requires tag == "ver/rhel/8+=1.28.10"
    ensures ParsedVer(tag) == Ok(VerTag(["rhel", "8"], Ge, [1, 28, 10]))
  {
    var stream, core := ["rhel", "8"], tag[12..];
    ExampleText(tag, core);
    ExampleNumbers(core);
    ExampleStream();
    ReadsAs(stream, core, [1, 28, 10]);
  }
}
