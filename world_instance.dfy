/** A session location such as `wrld_1:12345~region(eu)~group(grp_x)`, parsed
    into its world id, instance id and optional modifiers
    (src/zaphkiel/world_instance.rs). */
module WorldInstances {
  import opened Wrappers
  import opened Text
  import WorldRegions
  import GroupAccessTypes

  datatype WorldInstance = WorldInstance(
    worldId: string,
    instanceId: string,
    nonce: Option<string>,
    hidden: Option<string>,
    private: Option<string>,
    region: Option<WorldRegions.Regions>,
    friends: Option<string>,
    group: Option<string>,
    groupAccessType: Option<GroupAccessTypes.GroupAccessType>)

  /** `InvalidOptionalField` and `Other` are declared but never produced. */
  datatype WorldInstanceParseError =
    Empty | InvalidFormat | InvalidWorldId | InvalidInstanceId | InvalidOptionalField | Other

  /** `WorldInstance::new()`, the derived `Default`: empty ids, no modifiers. */
  function New(): (w: WorldInstance)
    ensures w.worldId == "" && w.instanceId == ""
    ensures w.nonce.None? && w.hidden.None? && w.private.None? && w.region.None?
    ensures w.friends.None? && w.group.None? && w.groupAccessType.None?
  {
    WorldInstance("", "", None, None, None, None, None, None, None)
  }

  /** `get_prefix`: `world_id:instance_id`, the key used to find co-occupants. */
  function GetPrefix(w: WorldInstance): string
  {
    w.worldId + ":" + w.instanceId
  }

  /** The modifier keys `from_str` knows. */
  const KnownKeys: set<string> :=
    {"nonce", "hidden", "private", "region", "friends", "group", "groupAccessType"}

  /** A `~`-segment carries a value when it contains a `(`. */
  predicate HasValue(segment: string)
  {
    |Split(segment, '(')| >= 2
  }

  /** The text before the first `(`. */
  function SegmentKey(segment: string): string
  {
    Split(segment, '(')[0]
  }

  /** The text after the first `(`, up to the next `(` or `)`, whichever comes
      first (or to the end of the segment): the value of `n(a(b)` is `a`. */
  function SegmentValue(segment: string): string
    requires HasValue(segment)
  {
    Split(Split(segment, '(')[1], ')')[0]
  }

  /** A second `(` ends the value as a `)` would: `n(a(b)` has key `n` and value `a`. */
  lemma SegmentValueStopsAtParen()
    ensures HasValue("n(a(b)") && SegmentKey("n(a(b)") == "n" && SegmentValue("n(a(b)") == "a"
  {
    assert "n(a(b)" == "n" + ['('] + ("a" + ['('] + "b)");
    SplitAppend("n", "a" + ['('] + "b)", '(');
    SplitAppend("a", "b)", '(');
    SplitOfFree("b)", '(');
    SplitOfFree("a", ')');
  }

  /** One arm of the `match key` in `from_str`. */
  function SetModifier(ret: WorldInstance, key: string, value: string, segment: string): Fatal<WorldInstance>
  {
    if key == "nonce" then Done(ret.(nonce := Some(value)))
    else if key == "hidden" then Done(ret.(hidden := Some(value)))
    else if key == "private" then Done(ret.(private := Some(value)))
    else if key == "region" then
      match WorldRegions.FromString(value)
      case Done(r) => Done(ret.(region := Some(r)))
      case Panic(m) => Panic(m)
    else if key == "friends" then Done(ret.(friends := Some(value)))
    else if key == "group" then Done(ret.(group := Some(value)))
    else if key == "groupAccessType" then
      match GroupAccessTypes.FromString(value)
      case Done(g) => Done(ret.(groupAccessType := Some(g)))
      case Panic(m) => Panic(m)
    else Panic("Unknown key: " + key + ", " + segment)
  }

  /** One iteration of the loop over `~`-segments. */
  function ApplySegment(ret: WorldInstance, segment: string): Fatal<WorldInstance>
  {
    if !HasValue(segment) then Done(ret)
    else SetModifier(ret, SegmentKey(segment), SegmentValue(segment), segment)
  }

  /** The whole loop over `~`-segments, left to right, stopping at the first panic. */
  function ApplySegments(ret: WorldInstance, segments: seq<string>): Fatal<WorldInstance>
    decreases |segments|
  {
    if segments == [] then Done(ret)
    else
      match ApplySegment(ret, segments[0])
      case Done(next) => ApplySegments(next, segments[1..])
      case Panic(m) => Panic(m)
  }

  /** What `from_str` computes; the method `FromStr` below is proved to agree with it. */
  function Parse(s: string): Fatal<Result<WorldInstance, WorldInstanceParseError>>
  {
    if s == "" then Done(Err(Empty))
    else
      var parts := Split(s, ':');
      if |parts| != 2 then Done(Err(InvalidFormat))
      else if parts[0] == "" then Done(Err(InvalidWorldId))
      else
        var segments := Split(parts[1], '~');
        if segments[0] == "" then Done(Err(InvalidInstanceId))
        else
          match ApplySegments(New().(worldId := parts[0], instanceId := segments[0]), segments)
          case Done(w) => Done(Ok(w))
          case Panic(m) => Panic(m)
  }

  /** `FromStr::from_str`: checks the shape, then fills a mutable `ret` while
      looping over the `~`-segments; a later value for a key overwrites an
      earlier one, and an unknown key panics. */
  method FromStr(s: string) returns (r: Fatal<Result<WorldInstance, WorldInstanceParseError>>)
    ensures r == Parse(s)
  {
    if s == "" {
      return Done(Err(Empty));
    }
    var ret := New();
    var parts := Split(s, ':');
    if |parts| != 2 {
      return Done(Err(InvalidFormat));
    }
    if parts[0] == "" {
      return Done(Err(InvalidWorldId));
    }
    ret := ret.(worldId := parts[0]);
    var segments := Split(parts[1], '~');
    if segments[0] == "" {
      return Done(Err(InvalidInstanceId));
    }
    ret := ret.(instanceId := segments[0]);
    ghost var start := ret;
    var i := 0;
    while i < |segments|
      invariant 0 <= i <= |segments|
      invariant ApplySegments(start, segments) == ApplySegments(ret, segments[i..])
    {
      assert segments[i..] == [segments[i]] + segments[i + 1..];
      var step := ParseSegment(ret, segments[i]);
      if step.Panic? {
        return Panic(step.message);
      }
      ret := step.value;
      i := i + 1;
    }
    return Done(Ok(ret));
  }

  /** The body of the loop over `~`-segments: a segment without `(` is skipped,
      otherwise its key picks the field to overwrite. */
  method ParseSegment(ret: WorldInstance, segment: string) returns (r: Fatal<WorldInstance>)
    ensures r == ApplySegment(ret, segment)
  {
    var pieces := Split(segment, '(');
    var key := pieces[0];
    if |pieces| < 2 {
      return Done(ret);
    }
    var value := Split(pieces[1], ')')[0];
    if key == "nonce" {
      r := Done(ret.(nonce := Some(value)));
    } else if key == "hidden" {
      r := Done(ret.(hidden := Some(value)));
    } else if key == "private" {
      r := Done(ret.(private := Some(value)));
    } else if key == "region" {
      var region := WorldRegions.FromString(value);
      if region.Panic? {
        return Panic(region.message);
      }
      r := Done(ret.(region := Some(region.value)));
    } else if key == "friends" {
      r := Done(ret.(friends := Some(value)));
    } else if key == "group" {
      r := Done(ret.(group := Some(value)));
    } else if key == "groupAccessType" {
      var access := GroupAccessTypes.FromString(value);
      if access.Panic? {
        return Panic(access.message);
      }
      r := Done(ret.(groupAccessType := Some(access.value)));
    } else {
      r := Panic("Unknown key: " + key + ", " + segment);
    }
  }

  /** Debug spelling of an error, as `unwrap` prints it. */
  function ErrorName(e: WorldInstanceParseError): string
  {
    match e
    case Empty => "Empty"
    case InvalidFormat => "InvalidFormat"
    case InvalidWorldId => "InvalidWorldId"
    case InvalidInstanceId => "InvalidInstanceId"
    case InvalidOptionalField => "InvalidOptionalField"
    case Other => "Other"
  }

  /** `From<&str>` and `From<String>` for `WorldInstance`: `from_str(s).unwrap()`,
      so every parse error becomes a panic. */
  function FromUnwrap(s: string): (r: Fatal<WorldInstance>)
    ensures r.Done? <==> Parse(s).Done? && Parse(s).value.Ok?
    ensures r.Done? ==> Parse(s) == Done(Ok(r.value))
  {
    match Parse(s)
    case Done(Ok(w)) => Done(w)
    case Done(Err(e)) => Panic("called `Result::unwrap()` on an `Err` value: " + ErrorName(e))
    case Panic(m) => Panic(m)
  }

  // ---------------------------------------------------------------------------
  // The error classes of `from_str`

  /** The instance id is empty: nothing between the `:` and the first `~`. */
  predicate InstanceIdMissing(s: string)
  {
    var i := IndexOf(s, ':');
    i + 1 >= |s| || s[i + 1] == '~'
  }

  /** With exactly one `:`, the text splits into what is before and after it. */
  lemma {:induction false} SplitAtColon(s: string)
    requires Count(s, ':') == 1
    ensures IndexOf(s, ':') < |s|
    ensures Split(s, ':') == [s[..IndexOf(s, ':')], s[IndexOf(s, ':') + 1..]]
  {
    SplitLength(s, ':');
    SplitHead(s, ':');
    SplitJoin(s, ':');
    var parts := Split(s, ':');
    var i := IndexOf(s, ':');
    assert Join(parts, ':') == parts[0] + [':'] + parts[1];
    assert s == parts[0] + [':'] + parts[1];
    assert |parts[0]| == i;
  }

  /** The first `~`-piece of a text is empty exactly when the text is empty or starts with `~`. */
  lemma FirstPieceEmpty(t: string)
    ensures Split(t, '~')[0] == "" <==> t == "" || t[0] == '~'
  {
    SplitHead(t, '~');
  }

  /** Which error, if any, `from_str` reports for a given text. Each error class
      is characterised on the raw text, in both directions. */
  lemma ParseErrorClasses(s: string)
    ensures Parse(s) == Done(Err(Empty)) <==> s == ""
    ensures Parse(s) == Done(Err(InvalidFormat)) <==> s != "" && Count(s, ':') != 1
    ensures Parse(s) == Done(Err(InvalidWorldId)) <==> s != "" && Count(s, ':') == 1 && s[0] == ':'
    ensures Parse(s) == Done(Err(InvalidInstanceId)) <==>
      s != "" && Count(s, ':') == 1 && s[0] != ':' && InstanceIdMissing(s)
    ensures Parse(s) != Done(Err(InvalidOptionalField)) && Parse(s) != Done(Err(Other))
  {
    if s != "" {
      SplitLength(s, ':');
      if Count(s, ':') == 1 {
        SplitAtColon(s);
        var i := IndexOf(s, ':');
        assert s[..i] == "" <==> s[0] == ':';
        FirstPieceEmpty(s[i + 1..]);
      }
    }
  }

  /** On success, the world id is the text before the `:` and the instance id
      the text after it up to the first `~`. */
  lemma ParseOkParts(s: string, w: WorldInstance)
    requires Parse(s) == Done(Ok(w))
    ensures Count(s, ':') == 1
    ensures w.worldId == s[..IndexOf(s, ':')] != ""
    ensures w.instanceId == Split(s[IndexOf(s, ':') + 1..], '~')[0] != ""
  {
    var parts := Split(s, ':');
    var segments := Split(parts[1], '~');
    ApplySegmentsKeepsIds(New().(worldId := parts[0], instanceId := segments[0]), segments, w);
    SplitLength(s, ':');
    SplitAtColon(s);
  }

  /** In a text with one `:`, the text before it, the `:` and the text after it
      up to the first `~` form a prefix of the text that ends at a `~` or at the end. */
  lemma {:induction false} ColonPrefix(s: string, a: string, b: string)
    requires Count(s, ':') == 1
    requires a == s[..IndexOf(s, ':')]
    requires b == Split(s[IndexOf(s, ':') + 1..], '~')[0]
    ensures ':' !in a && ':' !in b && '~' !in b
    ensures |a + ":" + b| <= |s| && s[..|a + ":" + b|] == a + ":" + b
    ensures |a + ":" + b| == |s| || s[|a + ":" + b|] == '~'
  {
    SplitAtColon(s);
    var i := IndexOf(s, ':');
    var rest := s[i + 1..];
    assert ':' !in rest by {
      SplitPiecesFree(s, ':');
      assert rest == Split(s, ':')[1];
    }
    SplitHead(rest, '~');
    var j := IndexOf(rest, '~');
    assert b == rest[..j];
    assert s == s[..i] + [':'] + rest;
    assert a + ":" + b == s[..i + 1 + j];
  }

  /** On success the parsed ids have the shape the splits guarantee, and
      `world_id:instance_id` is the input up to the first `~` after the `:`. */
  lemma ParseOkShape(s: string, w: WorldInstance)
    requires Parse(s) == Done(Ok(w))
    ensures Count(s, ':') == 1
    ensures w.worldId != "" && ':' !in w.worldId
    ensures w.instanceId != "" && ':' !in w.instanceId && '~' !in w.instanceId
    ensures |GetPrefix(w)| <= |s| && s[..|GetPrefix(w)|] == GetPrefix(w)
    ensures |GetPrefix(w)| == |s| || s[|GetPrefix(w)|] == '~'
  {
    ParseOkParts(s, w);
    ColonPrefix(s, w.worldId, w.instanceId);
  }

  /** The prefix used as the co-occupant key is the input up to its first `~`,
      whenever the world id itself contains no `~`. */
  lemma ParsePrefix(s: string, w: WorldInstance)
    requires Parse(s) == Done(Ok(w))
    requires '~' !in w.worldId
    ensures GetPrefix(w) == s[..IndexOf(s, '~')]
  {
    ParseOkShape(s, w);
    var p := GetPrefix(w);
    assert '~' !in p by {
      forall k | 0 <= k < |p| ensures p[k] != '~' {
        if k < |w.worldId| { assert p[k] == w.worldId[k]; }
        else if k > |w.worldId| { assert p[k] == w.instanceId[k - |w.worldId| - 1]; }
      }
    }
  }

  // ---------------------------------------------------------------------------
  // The modifier loop

  /** The value of the last segment that sets `key`, if any. */
  function LastValue(segments: seq<string>, key: string): Option<string>
  {
    if segments == [] then None
    else
      var last := segments[|segments| - 1];
      if HasValue(last) && SegmentKey(last) == key then Some(SegmentValue(last))
      else LastValue(segments[..|segments| - 1], key)
  }

  /** `LastValue` seen from the front: a later segment takes precedence. */
  lemma {:induction false} LastValueCons(first: string, rest: seq<string>, key: string)
    ensures LastValue([first] + rest, key) ==
      if LastValue(rest, key).Some? then LastValue(rest, key)
      else if HasValue(first) && SegmentKey(first) == key then Some(SegmentValue(first))
      else None
  {
    var all := [first] + rest;
    if rest != [] {
      assert all[..|all| - 1] == [first] + rest[..|rest| - 1];
      assert all[|all| - 1] == rest[|rest| - 1];
      LastValueCons(first, rest[..|rest| - 1], key);
    } else {
      assert all[..|all| - 1] == [];
    }
  }

  /** The modifier loop never changes the ids. */
  lemma {:induction false} ApplySegmentsKeepsIds(ret: WorldInstance, segments: seq<string>, w: WorldInstance)
    requires ApplySegments(ret, segments) == Done(w)
    decreases |segments|
    ensures w.worldId == ret.worldId && w.instanceId == ret.instanceId
  {
    if segments != [] {
      ApplySegmentsKeepsIds(ApplySegment(ret, segments[0]).value, segments[1..], w);
    }
  }

  /** `o` if it is set, otherwise `d`. */
  function OrElse<T>(o: Option<T>, d: Option<T>): Option<T>
  {
    if o.Some? then o else d
  }

  /** Each field holds the value of the LAST segment naming it (or its value
      before the loop when no segment names it); segments without `(` play no
      part. */
  lemma LastValueWins(ret: WorldInstance, segments: seq<string>, w: WorldInstance)
    requires ApplySegments(ret, segments) == Done(w)
    ensures w.worldId == ret.worldId && w.instanceId == ret.instanceId
    ensures w.nonce == OrElse(LastValue(segments, "nonce"), ret.nonce)
    ensures w.hidden == OrElse(LastValue(segments, "hidden"), ret.hidden)
    ensures w.private == OrElse(LastValue(segments, "private"), ret.private)
    ensures w.friends == OrElse(LastValue(segments, "friends"), ret.friends)
    ensures w.group == OrElse(LastValue(segments, "group"), ret.group)
    ensures match LastValue(segments, "region")
      case None => w.region == ret.region
      case Some(v) => WorldRegions.FromString(v).Done? && w.region == Some(WorldRegions.FromString(v).value)
    ensures match LastValue(segments, "groupAccessType")
      case None => w.groupAccessType == ret.groupAccessType
      case Some(v) => GroupAccessTypes.FromString(v).Done? && w.groupAccessType == Some(GroupAccessTypes.FromString(v).value)
  {
    ApplySegmentsKeepsIds(ret, segments, w);
    LastTextValueWins(ret, segments, w, "nonce");
    LastTextValueWins(ret, segments, w, "hidden");
    LastTextValueWins(ret, segments, w, "private");
    LastTextValueWins(ret, segments, w, "friends");
    LastTextValueWins(ret, segments, w, "group");
    LastDecodedValuesWin(ret, segments, w);
  }

  /** The five modifiers kept as text, looked up by key. */
  function TextField(w: WorldInstance, key: string): Option<string>
  {
    if key == "nonce" then w.nonce
    else if key == "hidden" then w.hidden
    else if key == "private" then w.private
    else if key == "friends" then w.friends
    else w.group
  }

  /** One segment sets the text modifier it names and leaves the others alone. */
  lemma ApplySegmentText(ret: WorldInstance, segment: string, next: WorldInstance, key: string)
    requires key in {"nonce", "hidden", "private", "friends", "group"}
    requires ApplySegment(ret, segment) == Done(next)
    ensures TextField(next, key) ==
      if HasValue(segment) && SegmentKey(segment) == key then Some(SegmentValue(segment)) else TextField(ret, key)
  {
  }

  /** `LastValueWins` for one of the five modifiers kept as text. */
  lemma {:induction false} LastTextValueWins(ret: WorldInstance, segments: seq<string>, w: WorldInstance, key: string)
    requires key in {"nonce", "hidden", "private", "friends", "group"}
    requires ApplySegments(ret, segments) == Done(w)
    decreases |segments|
    ensures TextField(w, key) == OrElse(LastValue(segments, key), TextField(ret, key))
  {
    if segments != [] {
      var first, rest := segments[0], segments[1..];
      assert segments == [first] + rest;
      var next := ApplySegment(ret, first).value;
      ApplySegmentText(ret, first, next, key);
      LastTextValueWins(next, rest, w, key);
      LastValueCons(first, rest, key);
    }
  }

  /** `LastValueWins` for the two modifiers decoded into enums. */
  lemma {:induction false} LastDecodedValuesWin(ret: WorldInstance, segments: seq<string>, w: WorldInstance)
    requires ApplySegments(ret, segments) == Done(w)
    decreases |segments|
    ensures match LastValue(segments, "region")
      case None => w.region == ret.region
      case Some(v) => WorldRegions.FromString(v).Done? && w.region == Some(WorldRegions.FromString(v).value)
    ensures match LastValue(segments, "groupAccessType")
      case None => w.groupAccessType == ret.groupAccessType
      case Some(v) => GroupAccessTypes.FromString(v).Done? && w.groupAccessType == Some(GroupAccessTypes.FromString(v).value)
  {
    if segments != [] {
      var first, rest := segments[0], segments[1..];
      assert segments == [first] + rest;
      var next := ApplySegment(ret, first).value;
      LastDecodedValuesWin(next, rest, w);
      LastValueCons(first, rest, "region");
      LastValueCons(first, rest, "groupAccessType");
    }
  }

  /** A segment with a `(` whose key is not one of the known keys is fatal. */
  lemma {:induction false} UnknownKeyPanics(ret: WorldInstance, segments: seq<string>)
    requires ApplySegments(ret, segments).Done?
    decreases |segments|
    ensures forall i :: 0 <= i < |segments| && HasValue(segments[i]) ==> SegmentKey(segments[i]) in KnownKeys
  {
    if segments != [] {
      UnknownKeyPanics(ApplySegment(ret, segments[0]).value, segments[1..]);
      forall i | 1 <= i < |segments|
        ensures segments[i] == segments[1..][i - 1]
      {
      }
    }
  }

  /** A segment the loop gets past: one without `(`, or one whose key is known
      and, for `region` and `groupAccessType`, whose value decodes. */
  predicate SegmentAccepted(segment: string)
  {
    HasValue(segment) ==>
      && SegmentKey(segment) in KnownKeys
      && (SegmentKey(segment) == "region" ==> WorldRegions.FromString(SegmentValue(segment)).Done?)
      && (SegmentKey(segment) == "groupAccessType" ==> GroupAccessTypes.FromString(SegmentValue(segment)).Done?)
  }

  /** The modifier loop gets through every segment exactly when each one is
      accepted: the converse of `UnknownKeyPanics` holds once the two decoded
      values are accounted for. */
  lemma {:induction false} ApplySegmentsDone(ret: WorldInstance, segments: seq<string>)
    decreases |segments|
    ensures ApplySegments(ret, segments).Done? <==> forall i :: 0 <= i < |segments| ==> SegmentAccepted(segments[i])
  {
    if segments != [] {
      assert ApplySegment(ret, segments[0]).Done? <==> SegmentAccepted(segments[0]);
      if ApplySegment(ret, segments[0]).Done? {
        ApplySegmentsDone(ApplySegment(ret, segments[0]).value, segments[1..]);
        forall i | 1 <= i < |segments|
          ensures segments[i] == segments[1..][i - 1]
        {
        }
      }
    }
  }

  /** `from_str` returns `Ok` exactly when none of its four errors applies and
      every `~`-segment is accepted; it never panics on such a text. */
  lemma ParseSucceeds(s: string)
    ensures (Parse(s).Done? && Parse(s).value.Ok?) <==>
      && s != "" && Count(s, ':') == 1 && s[0] != ':' && !InstanceIdMissing(s)
      && |Split(s, ':')| == 2
      && forall segment :: segment in Split(Split(s, ':')[1], '~') ==> SegmentAccepted(segment)
  {
    ParseErrorClasses(s);
    if s != "" && Count(s, ':') == 1 && s[0] != ':' && !InstanceIdMissing(s) {
      SplitLength(s, ':');
      var parts := Split(s, ':');
      var segments := Split(parts[1], '~');
      ApplySegmentsDone(New().(worldId := parts[0], instanceId := segments[0]), segments);
    }
  }

  /** `from_str` succeeds only if every modifier key is known. */
  lemma ParseRejectsUnknownKeys(s: string, w: WorldInstance, segment: string)
    requires Parse(s) == Done(Ok(w))
    requires segment in Split(Split(s, ':')[1], '~') && HasValue(segment)
    ensures SegmentKey(segment) in KnownKeys
  {
    var parts := Split(s, ':');
    var segments := Split(parts[1], '~');
    UnknownKeyPanics(New().(worldId := parts[0], instanceId := segments[0]), segments);
  }

  // ---------------------------------------------------------------------------
  // Round trip and the unit test of the source

  /** Writing `world:instance` and parsing it back gives the two ids and no
      modifiers, for ids that cannot be mistaken for separators. */
  lemma PrefixRoundTrip(worldId: string, instanceId: string)
    requires worldId != "" && ':' !in worldId
    requires instanceId != "" && ':' !in instanceId && '~' !in instanceId && '(' !in instanceId
    ensures Parse(GetPrefix(New().(worldId := worldId, instanceId := instanceId))) ==
      Done(Ok(New().(worldId := worldId, instanceId := instanceId)))
  {
    var w := New().(worldId := worldId, instanceId := instanceId);
    var s := GetPrefix(w);
    assert s != "";
    assert s == worldId + [':'] + instanceId;
    SplitAppend(worldId, instanceId, ':');
    SplitOfFree(instanceId, ':');
    SplitOfFree(instanceId, '~');
    SplitOfFree(instanceId, '(');
    assert Split(s, ':') == [worldId, instanceId];
    assert ApplySegments(w, [instanceId]) == ApplySegments(w, []);
  }

  /** A location with exactly one modifier segment `key(value)` parses to the
      two ids with that one modifier applied (or panics as that modifier does). */
  lemma ParseOneModifier(worldId: string, instanceId: string, key: string, value: string)
    requires worldId != "" && ':' !in worldId
    requires instanceId != "" && ':' !in instanceId && '~' !in instanceId && '(' !in instanceId
    requires ':' !in key && '~' !in key && '(' !in key
    requires ':' !in value && '~' !in value && '(' !in value && ')' !in value
    ensures Parse(worldId + ":" + instanceId + "~" + key + "(" + value + ")") ==
      match SetModifier(New().(worldId := worldId, instanceId := instanceId), key, value, key + "(" + value + ")")
      case Done(w) => Done(Ok(w))
      case Panic(m) => Panic(m)
  {
    var segment := key + "(" + value + ")";
    assert ':' !in segment && '~' !in segment;
    var rest := instanceId + "~" + segment;
    assert ':' !in rest;
    var s := worldId + ":" + instanceId + "~" + key + "(" + value + ")";
    assert s == worldId + [':'] + rest;
    SplitAppend(worldId, rest, ':');
    SplitOfFree(rest, ':');
    assert Split(s, ':') == [worldId, rest];
    assert rest == instanceId + ['~'] + segment;
    SplitAppend(instanceId, segment, '~');
    SplitOfFree(segment, '~');
    var segments := [instanceId, segment];
    assert Split(rest, '~') == segments;
    SplitOfFree(instanceId, '(');
    var inner := value + ")";
    assert '(' !in inner;
    assert segment == key + ['('] + inner;
    SplitAppend(key, inner, '(');
    SplitOfFree(inner, '(');
    assert inner == value + [')'] + "";
    SplitAppend(value, "", ')');
    assert SegmentKey(segment) == key && SegmentValue(segment) == value;
    assert Split(segment, '(') == [key, inner];
    assert HasValue(segment);
    var ret := New().(worldId := worldId, instanceId := instanceId);
    assert ApplySegment(ret, instanceId) == Done(ret);
    assert ApplySegment(ret, segment) == SetModifier(ret, key, value, segment);
    assert segments[1..] == [segment];
    assert [segment][1..] == [];
    assert ApplySegments(ret, segments) == ApplySegments(ret, [segment]);
    match SetModifier(ret, key, value, segment)
    case Done(w) =>
      assert ApplySegments(ret, [segment]) == ApplySegments(w, []);
    case Panic(m) =>
  }

  /** `"world_id:instance_id~region(EU)"` parses to region `Europe` and nothing
      else (the text is written out piece by piece). */
  lemma ParseExample()
    ensures Parse("world_id" + ":" + "instance_id" + "~" + "region" + "(" + "EU" + ")") ==
      Done(Ok(New().(worldId := "world_id", instanceId := "instance_id", region := Some(WorldRegions.Europe))))
  {
    ParseOneModifier("world_id", "instance_id", "region", "EU");
    assert ToLower("EU") == "eu";
    assert WorldRegions.FromString("EU") == Done(WorldRegions.Europe);
  }
}
