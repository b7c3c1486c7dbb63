/** The settings half of the status projection (`ApiRequestStatus.GetSettings`):
    every granted `Status/Settings/...` permission names a path into the settings
    object; the value found there is copied into a nested output object that is
    built on demand, in lock-step with the walk down the settings object.

    The runtime objects of the source are replaced by values: the settings object
    by the tree `Setting`, looked up by property name (`Child`), and the
    `ExpandoObject` output by the tree `Json`. */
module StatusSettings {
  import opened Wrappers

  // ---------------------------------------------------------------------------
  // The settings object
  // ---------------------------------------------------------------------------

  /** The value of a leaf property of the settings object. */
  datatype Scalar = Number(n: int) | Flag(b: bool) | Text(s: string) | TextList(items: seq<string>)

  /** The settings object: a leaf value, or an object whose public properties are
      found by name (the reflective `GetType().GetProperty(key)`). */
  datatype Setting = Leaf(value: Scalar) | Object(props: map<string, Setting>)

  /** The property `key` of a (possibly missing) settings value; a leaf value has
      no properties. */
  function Child(so: Option<Setting>, key: string): Option<Setting>
  {
    match so
    case Some(Object(props)) => if key in props then Some(props[key]) else None
    case _ => None
  }

  /** Follows the property names of `path` one after the other. */
  function At(so: Option<Setting>, path: seq<string>): Option<Setting>
    decreases |path|
  {
    if path == [] then so else At(Child(so, path[0]), path[1..])
  }

  /** The settings value at `path`, if every property on the way exists. */
  function Lookup(instance: Setting, path: seq<string>): Option<Setting>
  {
    At(Some(instance), path)
  }

  /** A path is fully walked when every property on it exists; the value is
      then copied unless the last key is the empty string. */
  predicate Reaches(instance: Setting, keys: seq<string>)
  {
    keys != [] && keys[|keys| - 1] != "" && Lookup(instance, keys).Some?
  }

  lemma {:induction false} AtMissing(path: seq<string>)
    ensures At(None, path) == None
    decreases |path|
  {
    if path != [] {
      AtMissing(path[1..]);
    }
  }

  // ---------------------------------------------------------------------------
  // Permissions
  // ---------------------------------------------------------------------------

  const SettingsPrefix: string := "Status/Settings/"

  predicate StartsWith(s: string, prefix: string)
  {
    |prefix| <= |s| && s[..|prefix|] == prefix
  }

  /** The permissions that drive the walk, in enumeration order, each with its
      16-character `Status/Settings/` prefix cut off. */
  function AllowedSettings(permissions: seq<string>): (allowed: seq<string>)
    ensures |allowed| <= |permissions|
    ensures forall p :: p in allowed <==> SettingsPrefix + p in permissions
  {
    if permissions == [] then []
    else
      var rest := AllowedSettings(permissions[1..]);
      var perm := permissions[0];
      assert forall p :: SettingsPrefix + p in permissions <==>
        SettingsPrefix + p == perm || SettingsPrefix + p in permissions[1..];
      if StartsWith(perm, SettingsPrefix) then
        assert SettingsPrefix + perm[16..] == perm;
        assert forall p :: SettingsPrefix + p == perm ==> p == perm[16..];
        [perm[16..]] + rest
      else
        assert forall p :: SettingsPrefix + p != perm;
        rest
  }

  /** One permission gives its path when it has the settings prefix, and
      nothing otherwise. */
  lemma AllowedSettingsOne(perm: string)
    ensures AllowedSettings([perm]) == if StartsWith(perm, SettingsPrefix) then [perm[16..]] else []
  {
    assert [perm][1..] == [];
  }

  /** The filter keeps the permissions' order and repetitions: the paths of a
      concatenation are the paths of its parts, one after the other. */
  lemma {:induction false} AllowedSettingsAppend(a: seq<string>, b: seq<string>)
    ensures AllowedSettings(a + b) == AllowedSettings(a) + AllowedSettings(b)
  {
    if a != [] {
      assert (a + b)[0] == a[0] && (a + b)[1..] == a[1..] + b;
      AllowedSettingsAppend(a[1..], b);
    } else {
      assert a + b == b;
    }
  }

  // ---------------------------------------------------------------------------
  // Splitting a permission path
  // ---------------------------------------------------------------------------

  /** Puts the separator between consecutive parts. */
  function Join(parts: seq<string>, sep: char): string
    requires |parts| >= 1
    decreases |parts|
  {
    if |parts| == 1 then parts[0] else parts[0] + [sep] + Join(parts[1..], sep)
  }

  /** `String.Split(sep)`: the pieces between separators, empty pieces included;
      the empty string gives one empty piece. */
  function Split(s: string, sep: char): (parts: seq<string>)
    ensures |parts| >= 1
    ensures forall i :: 0 <= i < |parts| ==> sep !in parts[i]
    ensures Join(parts, sep) == s
    decreases |s|
  {
    if s == [] then [""]
    else
      var rest := Split(s[1..], sep);
      if s[0] == sep then
        assert ([""] + rest)[1..] == rest;
        [""] + rest
      else
        var parts := [[s[0]] + rest[0]] + rest[1..];
        assert parts[1..] == rest[1..];
        assert s == [s[0]] + s[1..];
        parts
  }

  lemma {:induction false} SplitWithoutSeparator(s: string, sep: char)
    requires sep !in s
    ensures Split(s, sep) == [s]
    decreases |s|
  {
    if s != [] {
      SplitWithoutSeparator(s[1..], sep);
      assert [s[0]] + s[1..] == s;
    }
  }

  lemma {:induction false} SplitAtSeparator(a: string, sep: char, b: string)
    requires sep !in a
    ensures Split(a + [sep] + b, sep) == [a] + Split(b, sep)
    decreases |a|
  {
    var s := a + [sep] + b;
    if a == [] {
      assert s[1..] == b;
    } else {
      assert s[1..] == a[1..] + [sep] + b;
      SplitAtSeparator(a[1..], sep, b);
      assert [a[0]] + a[1..] == a;
    }
  }

  /** Splitting undoes joining, for parts that hold no separator. */
  lemma {:induction false} SplitJoin(parts: seq<string>, sep: char)
    requires |parts| >= 1
    requires forall i :: 0 <= i < |parts| ==> sep !in parts[i]
    ensures Split(Join(parts, sep), sep) == parts
    decreases |parts|
  {
    if |parts| == 1 {
      SplitWithoutSeparator(parts[0], sep);
    } else {
      SplitJoin(parts[1..], sep);
      SplitAtSeparator(parts[0], sep, Join(parts[1..], sep));
      assert [parts[0]] + parts[1..] == parts;
    }
  }

  // ---------------------------------------------------------------------------
  // The output object
  // ---------------------------------------------------------------------------

  /** A node of the output: an `ExpandoObject` whose members the walk adds, or a
      value copied out of the settings object (which is never an expando). */
  datatype Json = Expando(members: map<string, Json>) | Copy(setting: Setting)

  /** What one permission path does to the output dictionary it starts from:
      it completes with the final copy, it is abandoned (a missing property,
      or an empty last key) keeping the placeholders it created, or the cast of
      a copied value to a dictionary throws. */
  datatype Walked = Completed(members: map<string, Json>) | Abandoned(members: map<string, Json>) | CastFailed

  /** An enclosing dictionary and the key the walk descended through. */
  datatype Frame = Frame(members: map<string, Json>, key: string)

  /** Writes a dictionary back into its enclosing dictionaries: in the source the
      nested objects are shared, so a change made through `output` is visible
      from the root. */
  function Plug(frames: seq<Frame>, members: map<string, Json>): map<string, Json>
    decreases |frames|
  {
    if frames == [] then members
    else
      var f := frames[|frames| - 1];
      Plug(frames[..|frames| - 1], f.members[f.key := Expando(members)])
  }

  function Lift(frames: seq<Frame>, w: Walked): Walked
  {
    match w
    case Completed(m) => Completed(Plug(frames, m))
    case Abandoned(m) => Abandoned(Plug(frames, m))
    case CastFailed => CastFailed
  }

  lemma LiftAppend(frames: seq<Frame>, f: Frame, w: Walked)
    ensures Lift(frames + [f], w) == Lift(frames, Lift([f], w))
  {
    assert (frames + [f])[..|frames|] == frames;
    assert [f][..0] == [];
    match w
    case Completed(m) =>
      assert Plug([f], m) == f.members[f.key := Expando(m)];
    case Abandoned(m) =>
      assert Plug([f], m) == f.members[f.key := Expando(m)];
    case CastFailed =>
  }

  /** One key of a permission path, applied to the dictionary `output` and the
      settings value `input`: the member for `key` is created if absent, then
      the property `key` is looked up. */
  function WalkPath(output: map<string, Json>, input: Setting, keys: seq<string>): Walked
    requires keys != []
    decreases |keys|, 1
  {
    var key := keys[0];
    var created := if key in output then output else output[key := Expando(map[])];
    match Child(Some(input), key)
    case None => Abandoned(created)
    case Some(value) => Descend(created, key, value, keys[1..])
  }

  /** After the property `key` was found (holding `input`): at the end of the path
      the member `key` is replaced by the copied value; otherwise the member is
      cast to a dictionary and the walk goes on below it. */
  function Descend(output: map<string, Json>, key: string, input: Setting, rest: seq<string>): Walked
    requires key in output
    decreases |rest|, 2
  {
    if rest == [] then
      if key != "" then Completed(output[key := Copy(input)]) else Abandoned(output)
    else
      match output[key]
      case Copy(_) => CastFailed
      case Expando(child) => Lift([Frame(output, key)], WalkPath(child, input, rest))
  }

  datatype SettingsFault = InvalidCast

  /** The remaining permission paths, applied in order to the output built so
      far; `hasResults` records whether some path completed. */
  function Project(settings: map<string, Json>, hasResults: bool, instance: Setting, paths: seq<string>)
    : Result<Option<Json>, SettingsFault>
    decreases |paths|
  {
    if paths == [] then Ok(if hasResults then Some(Expando(settings)) else None)
    else
      match WalkPath(settings, instance, Split(paths[0], '/'))
      case CastFailed => Err(InvalidCast)
      case Completed(m) => Project(m, true, instance, paths[1..])
      case Abandoned(m) => Project(m, hasResults, instance, paths[1..])
  }

  /** The settings projection of a status request. */
  function ProjectSettings(permissions: seq<string>, instance: Setting): Result<Option<Json>, SettingsFault>
  {
    Project(map[], false, instance, AllowedSettings(permissions))
  }

  /** `GetSettings`: `Ok(None)` is the `null` result, `Err` the exception of the
      cast to a dictionary. */
  method GetSettings(permissions: seq<string>, instance: Setting) returns (r: Result<Option<Json>, SettingsFault>)
    ensures r == ProjectSettings(permissions, instance)
  {
    var settings: map<string, Json> := map[];
    var allowedSettings := AllowedSettings(permissions);
    var hasResults := false;

    label Next:
    for j := 0 to |allowedSettings|
      invariant ProjectSettings(permissions, instance) == Project(settings, hasResults, instance, allowedSettings[j..])
    {
      var allowedSetting := allowedSettings[j];
      var keys := Split(allowedSetting, '/');
      ghost var walked := WalkPath(settings, instance, keys);
      assert Project(settings, hasResults, instance, allowedSettings[j..]) ==
        match walked
        case CastFailed => Err(InvalidCast)
        case Completed(m) => Project(m, true, instance, allowedSettings[j + 1..])
        case Abandoned(m) => Project(m, hasResults, instance, allowedSettings[j + 1..]);

      var lastKey := "";
      var next := Expando(settings);
      var input := instance;
      var output := settings;
      var frames: seq<Frame> := [];

      // one step per key: the output node and the settings value move down together
      for i := 0 to |keys|
        invariant i == 0 ==> frames == [] && next == Expando(settings) && input == instance
        invariant i > 0 ==> lastKey == keys[i - 1] && lastKey in output && next == output[lastKey]
        invariant walked == Lift(frames, if i == 0 then WalkPath(settings, instance, keys)
                                         else Descend(output, lastKey, input, keys[i..]))
      {
        var key := keys[i];
        if next.Copy? {
          return Err(InvalidCast);
        }
        if i > 0 {
          LiftAppend(frames, Frame(output, lastKey), WalkPath(next.members, input, keys[i..]));
          frames := frames + [Frame(output, lastKey)];
        }
        lastKey := key;
        output := next.members;

        // a key not yet in the output gets an empty object of its own
        if key !in output {
          output := output[key := Expando(map[])];
        }
        next := output[key];

        // the property named by the key, if the current settings value has it
        match Child(Some(input), key)
        case None =>
          settings := Plug(frames, output);
          continue Next;
        case Some(value) =>
          input := value;
      }

      assert keys[|keys|..] == [];
      assert walked == Lift(frames, Descend(output, lastKey, input, []));
      if lastKey != "" {
        ghost var found := output;
        // the last key now holds the settings value itself
        output := output - {lastKey};
        output := output[lastKey := Copy(input)];
        hasResults := true;
        assert output == found[lastKey := Copy(input)];
      }
      settings := Plug(frames, output);
    }

    if !hasResults {
      return Ok(None);
    }
    return Ok(Some(Expando(settings)));
  }
}
