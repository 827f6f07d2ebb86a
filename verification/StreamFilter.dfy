/** Selection of the version tags that apply to a package stream such as `rhel-8-10`. */
module StreamFilter {
  import opened Wrappers
  import opened Text
  import opened VersionTags
  import opened TagSyntax
  import opened Selection

  datatype FilterError = EmptyStreamPart

  /** The tags of exactly one stream, in order, without the stream. */
  function OfStream(tags: seq<VerTag>, stream: seq<string>): seq<Tag> {
    if tags == [] then []
    else (if tags[0].stream == stream then [Tag(tags[0].op, tags[0].ver)] else []) + OfStream(tags[1..], stream)
  }

  ghost predicate Occurs(tags: seq<VerTag>, stream: seq<string>) {
    exists t :: t in tags && t.stream == stream
  }

  /** The longest prefix of the package stream that some tag names. */
  ghost predicate LongestPrefix(tags: seq<VerTag>, parts: seq<string>, k: int) {
    && 0 <= k <= |parts| && Occurs(tags, parts[..k])
    && forall j :: k < j <= |parts| ==> !Occurs(tags, parts[..j])
  }

  lemma LongestIsUnique(tags: seq<VerTag>, parts: seq<string>)
    ensures forall i, k :: LongestPrefix(tags, parts, i) && LongestPrefix(tags, parts, k) ==> i == k
  {
  }

  /** The applicable tags: those of the longest named prefix, or none. */
  ghost function Applicable(tags: seq<VerTag>, parts: seq<string>): seq<Tag> {
    if k :| LongestPrefix(tags, parts, k) then OfStream(tags, parts[..k]) else []
  }

  method TestVersionTagFilterForStream(tags: seq<VerTag>, nmStream: string) returns (r: Result<seq<Tag>, FilterError>)
    ensures var parts := Split(nmStream, '-');
            r == if tags != [] && "" in parts then Err(EmptyStreamPart) else Ok(Applicable(tags, parts))
  {
    if tags == [] {
      return Ok([]);
    }
    var parts := Split(nmStream, '-');
    if "" in parts {
      return Err(EmptyStreamPart);
    }
    LongestIsUnique(tags, parts);
    var streams := parts;
    while true
      invariant streams == parts[..|streams|] && |streams| <= |parts|
      invariant forall j :: |streams| < j <= |parts| ==> !Occurs(tags, parts[..j])
      decreases |streams|
    {
      if exists t :: t in tags && t.stream == streams {
        assert LongestPrefix(tags, parts, |streams|);
        return Ok(OfStream(tags, streams));
      }
      assert !Occurs(tags, parts[..|streams|]);
      if streams == [] {
        return Ok([]);
      }
      streams := streams[..|streams|-1];
    }
  }

  /** A tag in the middle of a list adds itself, or nothing, to the tags of a stream. */
  lemma {:induction false} OfStreamInsert(a: seq<VerTag>, t: VerTag, b: seq<VerTag>, stream: seq<string>)
    ensures t.stream != stream ==> OfStream(a + [t] + b, stream) == OfStream(a + b, stream)
    ensures t.stream == stream && !Occurs(a + b, stream) ==> OfStream(a + [t] + b, stream) == [Tag(t.op, t.ver)]
  {
    if a == [] {
      assert a + [t] + b == [t] + b && a + b == b && ([t] + b)[1..] == b;
      if !Occurs(b, stream) { NotOccurring(b, stream); }
    } else {
      assert (a + [t] + b)[1..] == a[1..] + [t] + b && (a + b)[1..] == a[1..] + b;
      assert (a + b)[0] == a[0] && a[0] in a + b;
      assert forall u :: u in a[1..] + b ==> u in a + b;
      OfStreamInsert(a[1..], t, b, stream);
    }
  }

  lemma {:induction false} NotOccurring(tags: seq<VerTag>, stream: seq<string>)
    requires !Occurs(tags, stream)
    ensures OfStream(tags, stream) == []
  {
    if tags != [] {
      assert tags[0] in tags;
      NotOccurring(tags[1..], stream);
    }
  }

  lemma OccursInserted(a: seq<VerTag>, t: VerTag, b: seq<VerTag>, stream: seq<string>)
    ensures Occurs(a + [t] + b, stream) <==> Occurs(a + b, stream) || t.stream == stream
  {
    assert forall u :: u in a + [t] + b <==> u == t || u in a + b;
    if Occurs(a + b, stream) {
      var u :| u in a + b && u.stream == stream;
      assert u in a + [t] + b;
    }
    assert t in a + [t] + b;
  }

  /** A tag whose stream is no prefix of the package stream, wherever it stands, changes nothing. */
  lemma OtherStreamsDoNotMatter(a: seq<VerTag>, t: VerTag, b: seq<VerTag>, parts: seq<string>)
    requires forall k :: 0 <= k <= |parts| ==> t.stream != parts[..k]
    ensures Applicable(a + [t] + b, parts) == Applicable(a + b, parts)
  {
    var more, less := a + [t] + b, a + b;
    forall k | 0 <= k <= |parts| ensures Occurs(more, parts[..k]) <==> Occurs(less, parts[..k]) {
      OccursInserted(a, t, b, parts[..k]);
    }
    assert forall k :: LongestPrefix(more, parts, k) <==> LongestPrefix(less, parts, k);
    LongestIsUnique(more, parts);
    if k :| LongestPrefix(more, parts, k) {
      OfStreamInsert(a, t, b, parts[..k]);
    }
  }

  /** A tag for a longer prefix than any named so far hides all the more general tags. */
  lemma SpecificHidesGeneral(a: seq<VerTag>, t: VerTag, b: seq<VerTag>, parts: seq<string>, k: nat)
    requires k <= |parts| && t.stream == parts[..k]
    requires forall j :: k <= j <= |parts| ==> !Occurs(a + b, parts[..j])
    ensures Applicable(a + [t] + b, parts) == [Tag(t.op, t.ver)]
  {
    var more := a + [t] + b;
    forall j | k <= j <= |parts| ensures Occurs(more, parts[..j]) <==> j == k {
      OccursInserted(a, t, b, parts[..j]);
      assert j == k <==> |parts[..j]| == |t.stream|;
    }
    assert LongestPrefix(more, parts, k);
    LongestIsUnique(more, parts);
    OfStreamInsert(a, t, b, parts[..k]);
  }

  lemma {:induction false} OfStreamIsSelected(tags: seq<VerTag>, stream: seq<string>)
    ensures OfStream(tags, stream) == Select((t: VerTag) => t.stream == stream, (t: VerTag) => Tag(t.op, t.ver), tags)
  {
    if tags != [] { OfStreamIsSelected(tags[1..], stream); }
  }

  /** r lists, in order, the operator and version of each tag at the positions idx, which are those of the stream. */
  ghost predicate AllOfStream(tags: seq<VerTag>, stream: seq<string>, idx: seq<nat>, r: seq<Tag>) {
    Selects((t: VerTag) => t.stream == stream, (t: VerTag) => Tag(t.op, t.ver), tags, idx, r)
  }

  /** What the filter returns: all tags of the longest named prefix, however many, in order; nothing if no prefix is named. */
  lemma FilterMeaning(tags: seq<VerTag>, parts: seq<string>)
    ensures forall k :: LongestPrefix(tags, parts, k) ==> exists idx :: AllOfStream(tags, parts[..k], idx, Applicable(tags, parts))
    ensures (forall t, k :: t in tags && 0 <= k <= |parts| ==> t.stream != parts[..k]) ==> Applicable(tags, parts) == []
  {
    LongestIsUnique(tags, parts);
    if k :| LongestPrefix(tags, parts, k) {
      OfStreamIsSelected(tags, parts[..k]);
      var idx := SelectSelects((t: VerTag) => t.stream == parts[..k], (t: VerTag) => Tag(t.op, t.ver), tags);
      assert AllOfStream(tags, parts[..k], idx, Applicable(tags, parts));
    }
  }

  /** Some prefix is named exactly if there is a longest one. */
  lemma {:induction false} LongestExists(tags: seq<VerTag>, parts: seq<string>, n: nat)
    requires n <= |parts| && forall j :: n < j <= |parts| ==> !Occurs(tags, parts[..j])
    ensures (exists j :: 0 <= j <= n && Occurs(tags, parts[..j])) ==> exists k :: LongestPrefix(tags, parts, k)
  {
    if Occurs(tags, parts[..n]) {
      assert LongestPrefix(tags, parts, n);
    } else if n > 0 {
      LongestExists(tags, parts, n - 1);
    }
  }
}
