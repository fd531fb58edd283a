/** Path strings: trailing-slash normalisation, splitting on `/`, and the
    three kinds of pattern segment (literal, `:name` placeholder, `*` wildcard). */
module Paths {
  import opened Wrappers

  const Separator: char := '/'
  const Placeholder: string := ":"
  const Wildcard: string := "*"

  /** The failure that `validatePath` raises through `assert`: no path was given. */
  datatype PathError = MissingPath

  /** `validatePath`: an empty path is rejected; outside strict mode one
      trailing `/` is removed from a path longer than one character. */
  function ValidatePath(path: string, strict: bool): (r: Result<string, PathError>)
    ensures r.Err? <==> path == ""
    ensures r.Ok? ==> r.value != "" && r.value <= path
    ensures r.Ok? ==> (r.value == path <==> strict || |path| == 1 || path[|path| - 1] != Separator)
    ensures r.Ok? && r.value != path ==> path == r.value + [Separator]
  {
    if path == "" then Err(MissingPath)
    else if !strict && |path| > 1 && path[|path| - 1] == Separator then Ok(path[..|path| - 1])
    else Ok(path)
  }

  /** Outside strict mode a path and the same path with one more trailing
      `/` normalise to the same string. */
  lemma TrailingSlashEquivalence(path: string)
    requires path != ""
    requires path == [Separator] || path[|path| - 1] != Separator
    ensures ValidatePath(path, false) == Ok(path)
    ensures ValidatePath(path + [Separator], false) == Ok(path)
  {
    assert (path + [Separator])[..|path|] == path;
  }

  /** JavaScript's `s.split('/')`: the pieces between separators, including
      the empty ones; the empty string gives one empty piece. */
  function Split(s: string): (r: seq<string>)
    ensures |r| >= 1
    ensures forall i :: 0 <= i < |r| ==> Separator !in r[i]
  {
    if s == [] then [[]]
    else
      var rest := Split(s[1..]);
      if s[0] == Separator then [[]] + rest
      else [[s[0]] + rest[0]] + rest[1..]
  }

  /** `segments.join('/')`, the inverse of `Split`. */
  function Join(segments: seq<string>): string
    requires |segments| >= 1
  {
    if |segments| == 1 then segments[0]
    else segments[0] + [Separator] + Join(segments[1..])
  }

  lemma {:induction false} JoinSplit(s: string)
    ensures Join(Split(s)) == s
  {
    if s != [] {
      var rest := Split(s[1..]);
      JoinSplit(s[1..]);
      if s[0] == Separator {
        assert s == [Separator] + s[1..];
      } else if |rest| == 1 {
        assert s == [s[0]] + s[1..];
      } else {
        var r := Split(s);
        assert r[1..] == rest[1..];
        assert Join(rest) == rest[0] + [Separator] + Join(rest[1..]);
        assert s == [s[0]] + s[1..];
      }
    }
  }

  lemma {:induction false} SplitSingle(a: string)
    requires Separator !in a
    ensures Split(a) == [a]
  {
    if a != [] {
      SplitSingle(a[1..]);
      assert a == [a[0]] + a[1..];
    }
  }

  lemma {:induction false} SplitAfterSegment(a: string, t: string)
    requires Separator !in a
    ensures Split(a + [Separator] + t) == [a] + Split(t)
  {
    var s := a + [Separator] + t;
    if a == [] {
      assert s[1..] == t;
    } else {
      assert s[1..] == a[1..] + [Separator] + t;
      SplitAfterSegment(a[1..], t);
      assert a == [a[0]] + a[1..];
    }
  }

  lemma {:induction false} SplitJoin(segments: seq<string>)
    requires |segments| >= 1
    requires forall i :: 0 <= i < |segments| ==> Separator !in segments[i]
    ensures Split(Join(segments)) == segments
  {
    if |segments| == 1 {
      SplitSingle(segments[0]);
    } else {
      SplitJoin(segments[1..]);
      SplitAfterSegment(segments[0], Join(segments[1..]));
    }
  }

  /** What `getChildNode` makes of a segment: a leading `:` is a placeholder,
      the exact string `*` a wildcard, anything else (`some-*`, the empty
      string) a literal. */
  datatype Kind = Literal | Param | Star

  function KindOf(segment: string): Kind
  {
    if |segment| > 0 && segment[0] == Placeholder[0] then Param
    else if segment == Wildcard then Star
    else Literal
  }

  /** The key of the child slot a segment occupies: every placeholder shares
      the slot `:`, the wildcard the slot `*`, a literal its own text. */
  function SlotKey(segment: string): string
  {
    match KindOf(segment)
    case Param => Placeholder
    case Star => Wildcard
    case Literal => segment
  }

  function SlotKeys(segments: seq<string>): (keys: seq<string>)
    ensures |keys| == |segments|
  {
    if segments == [] then [] else [SlotKey(segments[0])] + SlotKeys(segments[1..])
  }

  /** A path is static when none of its segments is a placeholder or a wildcard. */
  predicate IsStaticPath(path: string)
  {
    AllLiteral(Split(path))
  }

  predicate AllLiteral(segments: seq<string>)
  {
    forall i :: 0 <= i < |segments| ==> KindOf(segments[i]) == Literal
  }

  /** The prefix test of `add`'s loop, one segment further. */
  lemma AllLiteralSnoc(segments: seq<string>, i: nat)
    requires i < |segments|
    ensures AllLiteral(segments[..i + 1]) == (AllLiteral(segments[..i]) && KindOf(segments[i]) == Literal)
  {
    assert forall j :: 0 <= j < i ==> segments[..i + 1][j] == segments[..i][j];
    assert segments[..i + 1][i] == segments[i];
  }

  /** A slot key is a placeholder or wildcard slot exactly when the segment is not a literal. */
  lemma SlotKeyKind(segment: string)
    ensures (SlotKey(segment) == Placeholder || SlotKey(segment) == Wildcard) <==> KindOf(segment) != Literal
    ensures KindOf(segment) == Literal ==> SlotKey(segment) == segment
  {
  }

  /** The slot keys of a static path are its own segments. */
  lemma {:induction false} StaticSlotKeys(segments: seq<string>)
    requires AllLiteral(segments)
    ensures SlotKeys(segments) == segments
  {
    if segments != [] {
      StaticSlotKeys(segments[1..]);
    }
  }

  lemma {:induction false} SlotKeysAt(segments: seq<string>, j: nat)
    requires j < |segments|
    ensures SlotKeys(segments)[j] == SlotKey(segments[j])
    decreases j
  {
    if j > 0 {
      SlotKeysAt(segments[1..], j - 1);
    }
  }

  /** A slot key that only a placeholder or a wildcard segment uses. */
  predicate IsVariableSlot(key: string)
  {
    key == Placeholder || key == Wildcard
  }

  /** No slot among `keys` is a placeholder or a wildcard slot. */
  predicate NoVariableSlot(keys: seq<string>)
  {
    forall j :: 0 <= j < |keys| ==> !IsVariableSlot(keys[j])
  }

  /** The slots of a walk avoid `:` and `*` exactly when every segment is a literal. */
  lemma LiteralSlots(segments: seq<string>)
    ensures AllLiteral(segments) <==> NoVariableSlot(SlotKeys(segments))
  {
    var keys := SlotKeys(segments);
    forall j | 0 <= j < |segments|
      ensures !IsVariableSlot(keys[j]) <==> KindOf(segments[j]) == Literal
    {
      SlotKeysAt(segments, j);
      SlotKeyKind(segments[j]);
    }
  }
}
