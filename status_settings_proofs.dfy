/** What the settings projection promises, proved about its specification
    `StatusSettings.ProjectSettings` (which `GetSettings` computes). */
module StatusSettingsProofs {
  import opened Wrappers
  import opened StatusSettings

  /** The settings value an output node gives for `path`: follow the members of
      the expandos; once a copied value is reached, continue inside it. */
  function Resolve(node: Json, path: seq<string>): Option<Setting>
    decreases |path|
  {
    match node
    case Copy(s) => Lookup(s, path)
    case Expando(members) =>
      if path != [] && path[0] in members then Resolve(members[path[0]], path[1..]) else None
  }

  /** Every value copied into the output (below `node`) is the settings value at
      the same path (`so` being the settings value at `node`'s path). */
  ghost predicate Consistent(node: Json, so: Option<Setting>)
    decreases node
  {
    match node
    case Copy(s) => so == Some(s)
    case Expando(members) => forall k :: k in members ==> Consistent(members[k], Child(so, k))
  }

  lemma {:induction false} ConsistentResolve(node: Json, so: Option<Setting>, path: seq<string>)
    requires Consistent(node, so)
    requires Resolve(node, path).Some?
    ensures Resolve(node, path) == At(so, path)
    decreases |path|
  {
    match node
    case Copy(s) =>
    case Expando(members) =>
      ConsistentResolve(members[path[0]], Child(so, path[0]), path[1..]);
  }

  lemma LiftOne(f: Frame, w: Walked)
    requires !w.CastFailed?
    ensures !Lift([f], w).CastFailed?
    ensures Lift([f], w).Completed? == w.Completed?
    ensures Lift([f], w).members == f.members[f.key := Expando(w.members)]
  {
    assert [f][..0] == [];
    assert Plug([f], w.members) == f.members[f.key := Expando(w.members)];
  }

  /** A walk that does not throw touches only the member for the first key of
      the path, creating it if absent. */
  lemma WalkShape(output: map<string, Json>, input: Setting, keys: seq<string>)
    requires keys != []
    requires !WalkPath(output, input, keys).CastFailed?
    ensures WalkPath(output, input, keys).members.Keys == output.Keys + {keys[0]}
    ensures forall k :: k in output && k != keys[0] ==> WalkPath(output, input, keys).members[k] == output[k]
    ensures keys[0] !in output && Child(Some(input), keys[0]).None? ==>
      WalkPath(output, input, keys).members[keys[0]] == Expando(map[])
  {
    var key, rest := keys[0], keys[1..];
    var created := if key in output then output else output[key := Expando(map[])];
    match Child(Some(input), key)
    case None =>
    case Some(value) =>
      if rest != [] {
        LiftOne(Frame(created, key), WalkPath(created[key].members, value, rest));
      }
  }

  /** A walk that does not throw completes exactly when the path reaches a value
      of the settings object through existing properties and its last key is
      not empty. */
  lemma {:induction false} WalkOutcome(output: map<string, Json>, input: Setting, keys: seq<string>)
    requires keys != []
    requires !WalkPath(output, input, keys).CastFailed?
    ensures WalkPath(output, input, keys).Completed? <==> Reaches(input, keys)
    decreases |keys|
  {
    var key, rest := keys[0], keys[1..];
    var created := if key in output then output else output[key := Expando(map[])];
    match Child(Some(input), key)
    case None =>
      AtMissing(rest);
    case Some(value) =>
      assert Lookup(input, keys) == Lookup(value, rest);
      if rest != [] {
        var child := created[key].members;
        WalkOutcome(child, value, rest);
        LiftOne(Frame(created, key), WalkPath(child, value, rest));
        assert keys[|keys| - 1] == rest[|rest| - 1];
      }
  }

  /** A walk that does not throw keeps the output consistent with the settings
      object, and after a completed walk the output gives the settings value at
      the walked path. */
  lemma {:induction false} WalkConsistent(output: map<string, Json>, input: Setting, keys: seq<string>)
    requires keys != []
    requires Consistent(Expando(output), Some(input))
    requires !WalkPath(output, input, keys).CastFailed?
    ensures Consistent(Expando(WalkPath(output, input, keys).members), Some(input))
    ensures WalkPath(output, input, keys).Completed? ==>
      Resolve(Expando(WalkPath(output, input, keys).members), keys) == Lookup(input, keys)
    decreases |keys|
  {
    var key, rest := keys[0], keys[1..];
    var created := if key in output then output else output[key := Expando(map[])];
    assert Consistent(Expando(created), Some(input));
    match Child(Some(input), key)
    case None =>
    case Some(value) =>
      if rest != [] {
        var child := created[key].members;
        WalkConsistent(child, value, rest);
        LiftOne(Frame(created, key), WalkPath(child, value, rest));
        assert Lookup(input, keys) == Lookup(value, rest);
      }
  }

  /** A walk that does not throw changes nothing the output already resolved:
      paths that share a prefix with it are merged into the same nested object,
      never lost. */
  lemma {:induction false} WalkKeepsResolved(output: map<string, Json>, input: Setting, keys: seq<string>, path: seq<string>)
    requires keys != []
    requires Consistent(Expando(output), Some(input))
    requires !WalkPath(output, input, keys).CastFailed?
    requires Resolve(Expando(output), path).Some?
    ensures Resolve(Expando(WalkPath(output, input, keys).members), path) == Resolve(Expando(output), path)
    decreases |keys|
  {
    var key, rest := keys[0], keys[1..];
    var created := if key in output then output else output[key := Expando(map[])];
    WalkShape(output, input, keys);
    if path[0] != key {
    } else {
      match Child(Some(input), key)
      case None =>
      case Some(value) =>
        if rest == [] {
          if key != "" {
            ConsistentResolve(output[key], Child(Some(input), key), path[1..]);
          }
        } else {
          var child := created[key].members;
          WalkKeepsResolved(child, value, rest, path[1..]);
          LiftOne(Frame(created, key), WalkPath(child, value, rest));
        }
    }
  }

  /** Applying the remaining paths in order: the result is `null` exactly when no
      path completes (and none did before), every value in the result is the
      settings value at its path, what was resolved stays resolved, and every
      completed path resolves to its settings value. */
  lemma {:induction false} ProjectFacts(settings: map<string, Json>, hasResults: bool, instance: Setting, paths: seq<string>)
    requires Consistent(Expando(settings), Some(instance))
    ensures var r := Project(settings, hasResults, instance, paths);
      r.Ok? ==> (r.value.None? <==> !hasResults && forall p :: p in paths ==> !Reaches(instance, Split(p, '/')))
    ensures var r := Project(settings, hasResults, instance, paths);
      r.Ok? && r.value.Some? ==> r.value.value.Expando? && Consistent(r.value.value, Some(instance))
    ensures var r := Project(settings, hasResults, instance, paths);
      r.Ok? && r.value.Some? ==>
        forall path :: Resolve(Expando(settings), path).Some? ==> Resolve(r.value.value, path) == Resolve(Expando(settings), path)
    ensures var r := Project(settings, hasResults, instance, paths);
      r.Ok? && r.value.Some? ==>
        forall p :: p in paths && Reaches(instance, Split(p, '/')) ==>
          Resolve(r.value.value, Split(p, '/')) == Lookup(instance, Split(p, '/'))
    decreases |paths|
  {
    if paths != [] {
      var keys := Split(paths[0], '/');
      var walked := WalkPath(settings, instance, keys);
      if !walked.CastFailed? {
        var has' := hasResults || walked.Completed?;
        assert Project(settings, hasResults, instance, paths) == Project(walked.members, has', instance, paths[1..]);
        WalkOutcome(settings, instance, keys);
        WalkConsistent(settings, instance, keys);
        ProjectFacts(walked.members, has', instance, paths[1..]);
        var r := Project(walked.members, has', instance, paths[1..]);
        if r.Ok? && r.value.Some? {
          forall path | Resolve(Expando(settings), path).Some?
            ensures Resolve(r.value.value, path) == Resolve(Expando(settings), path)
          {
            WalkKeepsResolved(settings, instance, keys, path);
          }
        }
        assert forall p :: p in paths <==> p == paths[0] || p in paths[1..];
        assert walked.Completed? <==> Reaches(instance, Split(paths[0], '/'));
        if r.Ok? {
          assert r.value.None? <==> !has' && forall p :: p in paths[1..] ==> !Reaches(instance, Split(p, '/'));
        }
      }
    }
  }

  /** `GetSettings` returns `null` exactly when no granted settings path reaches
      an existing property with a non-empty last key; otherwise every value in
      the returned object is the settings value at the same path, every such
      granted path resolves in it to the settings value it names (even where a
      later, shorter path replaced the object holding it by the whole value),
      every value copied into it sits at a granted path, and every object or
      value in it lies on a prefix of a granted path. */
  lemma SettingsProjection(permissions: seq<string>, instance: Setting)
    ensures var r := ProjectSettings(permissions, instance);
      r.Ok? ==> (r.value.None? <==> forall p :: p in AllowedSettings(permissions) ==> !Reaches(instance, Split(p, '/')))
    ensures var r := ProjectSettings(permissions, instance);
      r.Ok? && r.value.Some? ==> r.value.value.Expando? && Consistent(r.value.value, Some(instance))
    ensures var r := ProjectSettings(permissions, instance);
      r.Ok? && r.value.Some? ==>
        forall p :: SettingsPrefix + p in permissions && Reaches(instance, Split(p, '/')) ==>
          Resolve(r.value.value, Split(p, '/')) == Lookup(instance, Split(p, '/'))
    ensures var r := ProjectSettings(permissions, instance);
      r.Ok? && r.value.Some? ==>
        forall path :: CopyAt(r.value.value, path) ==> exists p :: SettingsPrefix + p in permissions && Split(p, '/') == path
    ensures var r := ProjectSettings(permissions, instance);
      r.Ok? && r.value.Some? ==>
        forall q :: q != [] && NodeAt(r.value.value, q).Some? ==>
          exists p :: SettingsPrefix + p in permissions && PrefixOf(q, Split(p, '/'))
  {
    ProjectFacts(map[], false, instance, AllowedSettings(permissions));
    forall path
      ensures !CopyAt(Expando(map[]), path)
    {
      EmptyHasNoCopy(path);
    }
    ProjectCopiesOnlyGranted(map[], false, instance, [], AllowedSettings(permissions));
    forall q | q != []
      ensures !NodeAt(Expando(map[]), q).Some?
    {
      EmptyHasOnlyRoot(q);
    }
    ProjectNodesOnPaths(map[], false, instance, [], AllowedSettings(permissions));
  }

  // ---------------------------------------------------------------------------
  // Placeholders and the failing cast
  // ---------------------------------------------------------------------------

  /** The output node at `path`, following expando members only. */
  function NodeAt(node: Json, path: seq<string>): Option<Json>
    decreases |path|
  {
    if path == [] then Some(node)
    else match node
      case Expando(members) => if path[0] in members then NodeAt(members[path[0]], path[1..]) else None
      case Copy(_) => None
  }

  predicate CopyAt(node: Json, path: seq<string>)
  {
    NodeAt(node, path).Some? && NodeAt(node, path).value.Copy?
  }

  lemma {:induction false} EmptyHasNoCopy(path: seq<string>)
    ensures !CopyAt(Expando(map[]), path)
  {
  }

  /** A walk that does not throw leaves a member for every key it reached, the
      first missing property included: the placeholders of an abandoned path
      stay in the output. */
  lemma {:induction false} WalkCreatesNodes(output: map<string, Json>, input: Setting, keys: seq<string>, i: nat)
    requires keys != []
    requires !WalkPath(output, input, keys).CastFailed?
    requires 1 <= i <= |keys| && Lookup(input, keys[..i - 1]).Some?
    ensures NodeAt(Expando(WalkPath(output, input, keys).members), keys[..i]).Some?
    decreases |keys|
  {
    var key, rest := keys[0], keys[1..];
    var created := if key in output then output else output[key := Expando(map[])];
    WalkShape(output, input, keys);
    if i > 1 {
      assert keys[..i - 1] == [key] + rest[..i - 2];
      assert Lookup(input, keys[..i - 1]) == At(Child(Some(input), key), rest[..i - 2]);
      match Child(Some(input), key)
      case None =>
        AtMissing(rest[..i - 2]);
      case Some(value) =>
        assert rest != [];
        var child := created[key].members;
        WalkCreatesNodes(child, value, rest, i - 1);
        LiftOne(Frame(created, key), WalkPath(child, value, rest));
        assert keys[..i][1..] == rest[..i - 1];
    }
  }

  /** The cast at the start of a step can fail only where an earlier path left a
      copied value on a strict prefix of this path. */
  lemma {:induction false} WalkCastFails(output: map<string, Json>, input: Setting, keys: seq<string>)
    requires keys != []
    requires forall i :: 0 < i < |keys| ==> !CopyAt(Expando(output), keys[..i])
    ensures !WalkPath(output, input, keys).CastFailed?
    decreases |keys|
  {
    var key, rest := keys[0], keys[1..];
    var created := if key in output then output else output[key := Expando(map[])];
    match Child(Some(input), key)
    case None =>
    case Some(value) =>
      if rest != [] {
        assert keys[..1] == [key] && [key][1..] == [];
        if key in output {
          assert NodeAt(Expando(output), keys[..1]) == NodeAt(output[key], []);
        }
        assert created[key].Expando?;
        var child := created[key].members;
        forall i | 0 < i < |rest|
          ensures !CopyAt(Expando(child), rest[..i])
        {
          assert keys[..i + 1] == [key] + rest[..i];
          if key !in output {
            EmptyHasNoCopy(rest[..i]);
          }
        }
        WalkCastFails(child, value, rest);
        LiftOne(Frame(created, key), WalkPath(child, value, rest));
      }
  }

  /** A walk adds a copied value only at its own path. */
  lemma {:induction false} WalkCopies(output: map<string, Json>, input: Setting, keys: seq<string>, path: seq<string>)
    requires keys != []
    requires !WalkPath(output, input, keys).CastFailed?
    requires CopyAt(Expando(WalkPath(output, input, keys).members), path)
    ensures CopyAt(Expando(output), path) || path == keys
    decreases |keys|
  {
    var key, rest := keys[0], keys[1..];
    var created := if key in output then output else output[key := Expando(map[])];
    WalkShape(output, input, keys);
    if path[0] == key {
      var after := WalkPath(output, input, keys).members;
      assert NodeAt(Expando(after), path) == NodeAt(after[key], path[1..]);
      match Child(Some(input), key)
      case None =>
        if key !in output {
          EmptyHasNoCopy(path[1..]);
        } else {
          assert after == output;
        }
      case Some(value) =>
        if rest == [] {
          if key != "" {
            if path[1..] == [] {
              assert path == [key] + path[1..] && keys == [key] + rest;
            }
          } else if key !in output {
            EmptyHasNoCopy(path[1..]);
          } else {
            assert after == output;
          }
        } else {
          var child := created[key].members;
          var after := WalkPath(output, input, keys).members;
          LiftOne(Frame(created, key), WalkPath(child, value, rest));
          assert NodeAt(Expando(after), path) == NodeAt(Expando(WalkPath(child, value, rest).members), path[1..]);
          if path[1..] != [] {
            WalkCopies(child, value, rest, path[1..]);
            if key !in output {
              EmptyHasNoCopy(path[1..]);
            } else {
              assert NodeAt(Expando(output), path) == NodeAt(Expando(child), path[1..]);
            }
            assert path == [key] + path[1..];
          }
        }
    }
  }

  predicate StrictPrefix(a: seq<string>, b: seq<string>)
  {
    |a| < |b| && b[..|a|] == a
  }

  /** `a` is `b` or a strict prefix of it. */
  predicate PrefixOf(a: seq<string>, b: seq<string>)
  {
    |a| <= |b| && b[..|a|] == a
  }

  lemma EmptyHasOnlyRoot(path: seq<string>)
    ensures NodeAt(Expando(map[]), path).Some? <==> path == []
  {
  }

  /** A walk that does not throw keeps every node of the output, at any depth;
      only a completed walk replaces what lay below its own path by the copied
      value. */
  lemma {:induction false} WalkKeepsNodes(output: map<string, Json>, input: Setting, keys: seq<string>, q: seq<string>)
    requires keys != []
    requires !WalkPath(output, input, keys).CastFailed?
    requires NodeAt(Expando(output), q).Some?
    requires !(WalkPath(output, input, keys).Completed? && StrictPrefix(keys, q))
    ensures NodeAt(Expando(WalkPath(output, input, keys).members), q).Some?
    decreases |keys|
  {
    var key, rest := keys[0], keys[1..];
    var created := if key in output then output else output[key := Expando(map[])];
    var after := WalkPath(output, input, keys).members;
    WalkShape(output, input, keys);
    if q != [] {
      assert NodeAt(Expando(after), q) == NodeAt(after[q[0]], q[1..]);
      assert NodeAt(Expando(output), q) == NodeAt(output[q[0]], q[1..]);
      if q[0] == key {
        match Child(Some(input), key)
        case None =>
          assert after == output;
        case Some(value) =>
          if rest == [] {
            if key == "" {
              assert after == output;
            }
          } else {
            var child := output[key].members;
            LiftOne(Frame(output, key), WalkPath(child, value, rest));
            WalkKeepsNodes(child, value, rest, q[1..]);
          }
      }
    }
  }

  /** A walk adds nodes only along its own path: every node of the output after
      the walk was there before or lies on a prefix of the walked path. */
  lemma {:induction false} WalkAddsOnlyItsPath(output: map<string, Json>, input: Setting, keys: seq<string>, q: seq<string>)
    requires keys != []
    requires !WalkPath(output, input, keys).CastFailed?
    requires NodeAt(Expando(WalkPath(output, input, keys).members), q).Some?
    ensures NodeAt(Expando(output), q).Some? || PrefixOf(q, keys)
    decreases |keys|
  {
    var key, rest := keys[0], keys[1..];
    var created := if key in output then output else output[key := Expando(map[])];
    var after := WalkPath(output, input, keys).members;
    WalkShape(output, input, keys);
    if q != [] {
      assert NodeAt(Expando(after), q) == NodeAt(after[q[0]], q[1..]);
      if q[0] == key {
        if key in output {
          assert NodeAt(Expando(output), q) == NodeAt(output[key], q[1..]);
        }
        match Child(Some(input), key)
        case None =>
          if key !in output {
            EmptyHasOnlyRoot(q[1..]);
            assert q == [key] && keys[..1] == [key];
          }
        case Some(value) =>
          if rest == [] {
            if key != "" {
              assert after[key].Copy?;
              assert q == [key] + q[1..] && q[1..] == [];
            } else if key !in output {
              EmptyHasOnlyRoot(q[1..]);
              assert q == [key] && keys[..1] == [key];
            }
          } else {
            var child := created[key].members;
            LiftOne(Frame(created, key), WalkPath(child, value, rest));
            WalkAddsOnlyItsPath(child, value, rest, q[1..]);
            if PrefixOf(q[1..], rest) {
              assert keys[..|q|] == [key] + rest[..|q| - 1];
              assert q == [key] + q[1..];
            }
          }
      }
    }
  }

  /** The fold keeps every node already in the output, as long as no remaining
      path is a strict prefix of it (such a path would put a copy above it). */
  lemma {:induction false} ProjectKeepsNodes(settings: map<string, Json>, hasResults: bool, instance: Setting,
                                            paths: seq<string>, q: seq<string>)
    requires NodeAt(Expando(settings), q).Some?
    requires forall p :: p in paths ==> !StrictPrefix(Split(p, '/'), q)
    ensures var r := Project(settings, hasResults, instance, paths);
      r.Ok? && r.value.Some? ==> NodeAt(r.value.value, q).Some?
    decreases |paths|
  {
    if paths != [] {
      var keys := Split(paths[0], '/');
      var walked := WalkPath(settings, instance, keys);
      if !walked.CastFailed? {
        assert paths[0] in paths;
        WalkKeepsNodes(settings, instance, keys, q);
        ProjectKeepsNodes(walked.members, hasResults || walked.Completed?, instance, paths[1..], q);
      }
    }
  }

  /** `q` lies on a prefix of one of the paths `done`. */
  predicate OnWalkedPath(q: seq<string>, done: seq<seq<string>>)
  {
    exists d :: d in done && PrefixOf(q, d)
  }

  /** `q` lies on a prefix of one of the permission paths `paths`. */
  predicate OnGrantedPath(q: seq<string>, paths: seq<string>)
  {
    exists p :: p in paths && PrefixOf(q, Split(p, '/'))
  }

  /** The fold adds nodes only along the paths it is given: every node of the
      result was on a prefix of a path walked before or of a remaining path. */
  lemma {:induction false} ProjectNodesOnPaths(settings: map<string, Json>, hasResults: bool, instance: Setting,
                                              done: seq<seq<string>>, paths: seq<string>)
    requires forall q :: q != [] && NodeAt(Expando(settings), q).Some? ==> OnWalkedPath(q, done)
    ensures var r := Project(settings, hasResults, instance, paths);
      r.Ok? && r.value.Some? ==>
        forall q :: q != [] && NodeAt(r.value.value, q).Some? ==> OnWalkedPath(q, done) || OnGrantedPath(q, paths)
    decreases |paths|
  {
    var r := Project(settings, hasResults, instance, paths);
    if paths == [] {
      assert r.Ok? && r.value.Some? ==> r.value.value == Expando(settings);
    } else {
      var keys := Split(paths[0], '/');
      var walked := WalkPath(settings, instance, keys);
      if !walked.CastFailed? {
        var done' := done + [keys];
        forall q | q != [] && NodeAt(Expando(walked.members), q).Some?
          ensures OnWalkedPath(q, done')
        {
          WalkAddsOnlyItsPath(settings, instance, keys, q);
          if !PrefixOf(q, keys) {
            var d :| d in done && PrefixOf(q, d);
            assert d in done';
          } else {
            assert keys in done';
          }
        }
        ProjectNodesOnPaths(walked.members, hasResults || walked.Completed?, instance, done', paths[1..]);
        assert r == Project(walked.members, hasResults || walked.Completed?, instance, paths[1..]);
        if r.Ok? && r.value.Some? {
          forall q | q != [] && NodeAt(r.value.value, q).Some?
            ensures OnWalkedPath(q, done) || OnGrantedPath(q, paths)
          {
            if OnGrantedPath(q, paths[1..]) {
              var p :| p in paths[1..] && PrefixOf(q, Split(p, '/'));
              assert p in paths;
            } else {
              var d :| d in done' && PrefixOf(q, d);
              if d !in done {
                assert d == keys && paths[0] in paths;
              }
            }
          }
        }
      }
    }
  }

  /** No path continues past the end of an earlier one. */
  predicate NoPathExtendsAnEarlier(paths: seq<string>)
  {
    forall i, j :: 0 <= i < j < |paths| ==> !StrictPrefix(Split(paths[i], '/'), Split(paths[j], '/'))
  }

  lemma {:induction false} ProjectNeverThrows(settings: map<string, Json>, hasResults: bool, instance: Setting,
                                             done: seq<seq<string>>, paths: seq<string>)
    requires forall path :: CopyAt(Expando(settings), path) ==> path in done
    requires forall d, j :: d in done && 0 <= j < |paths| ==> !StrictPrefix(d, Split(paths[j], '/'))
    requires NoPathExtendsAnEarlier(paths)
    ensures Project(settings, hasResults, instance, paths).Ok?
    decreases |paths|
  {
    if paths != [] {
      var keys := Split(paths[0], '/');
      forall i | 0 < i < |keys|
        ensures !CopyAt(Expando(settings), keys[..i])
      {
        if CopyAt(Expando(settings), keys[..i]) {
          assert StrictPrefix(keys[..i], keys);
        }
      }
      WalkCastFails(settings, instance, keys);
      var walked := WalkPath(settings, instance, keys);
      var done' := done + [keys];
      forall path | CopyAt(Expando(walked.members), path)
        ensures path in done'
      {
        WalkCopies(settings, instance, keys, path);
      }
      forall d, j | d in done' && 0 <= j < |paths[1..]|
        ensures !StrictPrefix(d, Split(paths[1..][j], '/'))
      {
        if d == keys {
          assert paths[1..][j] == paths[j + 1];
        }
      }
      assert NoPathExtendsAnEarlier(paths[1..]) by {
        forall i, j | 0 <= i < j < |paths[1..]|
          ensures !StrictPrefix(Split(paths[1..][i], '/'), Split(paths[1..][j], '/'))
        {
          assert paths[1..][i] == paths[i + 1] && paths[1..][j] == paths[j + 1];
        }
      }
      ProjectNeverThrows(walked.members, hasResults || walked.Completed?, instance, done', paths[1..]);
    }
  }

  /** The fold places copies only at paths copied before it or at paths it is
      given: nothing outside the granted paths is copied into the output. */
  lemma {:induction false} ProjectCopiesOnlyGranted(settings: map<string, Json>, hasResults: bool, instance: Setting,
                                                   done: seq<seq<string>>, paths: seq<string>)
    requires forall path :: CopyAt(Expando(settings), path) ==> path in done
    ensures var r := Project(settings, hasResults, instance, paths);
      r.Ok? && r.value.Some? ==>
        forall path :: CopyAt(r.value.value, path) ==> path in done || exists p :: p in paths && Split(p, '/') == path
    decreases |paths|
  {
    var r := Project(settings, hasResults, instance, paths);
    if paths == [] {
      assert r.Ok? && r.value.Some? ==> r.value.value == Expando(settings);
    } else {
      var keys := Split(paths[0], '/');
      var walked := WalkPath(settings, instance, keys);
      if !walked.CastFailed? {
        var done' := done + [keys];
        forall path | CopyAt(Expando(walked.members), path)
          ensures path in done'
        {
          WalkCopies(settings, instance, keys, path);
        }
        ProjectCopiesOnlyGranted(walked.members, hasResults || walked.Completed?, instance, done', paths[1..]);
        assert r == Project(walked.members, hasResults || walked.Completed?, instance, paths[1..]);
        if r.Ok? && r.value.Some? {
          forall path | CopyAt(r.value.value, path)
            ensures path in done || exists p :: p in paths && Split(p, '/') == path
          {
            if path !in done' {
              var p :| p in paths[1..] && Split(p, '/') == path;
              assert p in paths;
            } else if path !in done {
              assert path == keys && paths[0] in paths;
            }
          }
        }
      }
    }
  }

  /** `GetSettings` throws only when a granted settings path continues past the
      end of an earlier granted path (the earlier one copied a value there, which
      the cast to a dictionary refuses); without such a pair it never throws. */
  lemma SettingsProjectionNeverThrows(permissions: seq<string>, instance: Setting)
    requires NoPathExtendsAnEarlier(AllowedSettings(permissions))
    ensures ProjectSettings(permissions, instance).Ok?
  {
    forall path
      ensures !CopyAt(Expando(map[]), path)
    {
      EmptyHasNoCopy(path);
    }
    ProjectNeverThrows(map[], false, instance, [], AllowedSettings(permissions));
  }

  // ---------------------------------------------------------------------------
  // Worked examples
  // ---------------------------------------------------------------------------

  const Five := Leaf(Number(5))
  const Seven := Leaf(Number(7))
  const SampleA := Object(map["B" := Five, "C" := Seven])
  const Sample := Object(map["A" := SampleA])

  lemma SplitTwo(a: string, b: string)
    requires '/' !in a && '/' !in b
    ensures Split(a + "/" + b, '/') == [a, b]
  {
    SplitAtSeparator(a, '/', b);
    SplitWithoutSeparator(b, '/');
  }

  /** The walk of a two-key path `a/b` from `output` when `a` holds an expando
      `inner` and both properties exist. */
  lemma WalkTwoKeys(output: map<string, Json>, inner: map<string, Json>, input: Setting, a: string, b: string, value: Setting)
    requires a in output && output[a] == Expando(inner)
    requires Child(Some(input), a).Some? && Child(Child(Some(input), a), b) == Some(value) && b != ""
    ensures WalkPath(output, input, [a, b]) == Completed(output[a := Expando(inner[b := Copy(value)])])
  {
    assert [a, b][1..] == [b];
    var middle := Child(Some(input), a).value;
    var created := if b in inner then inner else inner[b := Expando(map[])];
    assert WalkPath(inner, middle, [b]) == Completed(created[b := Copy(value)]);
    assert created[b := Copy(value)] == inner[b := Copy(value)];
    LiftOne(Frame(output, a), WalkPath(inner, middle, [b]));
  }

  /** Two granted paths with a common prefix merge into one nested object. */
  lemma SharedPrefixMerges()
    ensures ProjectSettings(["Status/Settings/A/B", "Status/Settings/A/C"], Sample)
         == Ok(Some(Expando(map["A" := Expando(map["B" := Copy(Five), "C" := Copy(Seven)])])))
  {
    var perms := ["Status/Settings/A/B", "Status/Settings/A/C"];
    assert AllowedSettings(perms) == ["A/B", "A/C"] by {
      assert StartsWith(perms[0], SettingsPrefix) && perms[0][16..] == "A/B";
      assert StartsWith(perms[1], SettingsPrefix) && perms[1][16..] == "A/C";
      assert AllowedSettings(perms[1..][1..]) == [];
    }
    SplitTwo("A", "B");
    SplitTwo("A", "C");
    var start := map["A" := Expando(map[])];
    assert WalkPath(map[], Sample, ["A", "B"]) == WalkPath(start, Sample, ["A", "B"]);
    WalkTwoKeys(start, map[], Sample, "A", "B", Five);
    var first := map["A" := Expando(map["B" := Copy(Five)])];
    assert start["A" := Expando(map[]["B" := Copy(Five)])] == first;
    WalkTwoKeys(first, map["B" := Copy(Five)], Sample, "A", "C", Seven);
    assert first["A" := Expando(map["B" := Copy(Five)]["C" := Copy(Seven)])]
        == map["A" := Expando(map["B" := Copy(Five), "C" := Copy(Seven)])];
    assert ["A/B", "A/C"][1..] == ["A/C"] && ["A/C"][1..] == [];
  }

  /** The walk of a one-key path naming a property `input` lacks. */
  lemma WalkMissing(input: Setting, name: string)
    requires '/' !in name && Child(Some(input), name) == None
    ensures WalkPath(map[], input, Split(name, '/')) == Abandoned(map[name := Expando(map[])])
  {
    SplitWithoutSeparator(name, '/');
  }

  /** The paths granted by a permission for `name` followed by one for `A/B`. */
  lemma AllowedNameThenAB(name: string)
    ensures AllowedSettings([SettingsPrefix + name, "Status/Settings/A/B"]) == [name, "A/B"]
  {
    var perms := [SettingsPrefix + name, "Status/Settings/A/B"];
    assert StartsWith(perms[0], SettingsPrefix) && perms[0][16..] == name;
    assert StartsWith(perms[1], SettingsPrefix) && perms[1][16..] == "A/B";
    assert AllowedSettings(perms[1..][1..]) == [];
  }

  /** A path naming a missing property is skipped, but its placeholder stays in
      the output when another path completes. */
  lemma MissingBeforePresent(name: string)
    requires '/' !in name && name != "A" && Child(Some(Sample), name) == None
    ensures ProjectSettings([SettingsPrefix + name, "Status/Settings/A/B"], Sample)
         == Ok(Some(Expando(map[name := Expando(map[]), "A" := Expando(map["B" := Copy(Five)])])))
  {
    AllowedNameThenAB(name);
    var placeholder := map[name := Expando(map[])];
    WalkMissing(Sample, name);
    var start := placeholder["A" := Expando(map[])];
    SplitTwo("A", "B");
    assert WalkPath(placeholder, Sample, ["A", "B"]) == WalkPath(start, Sample, ["A", "B"]);
    WalkTwoKeys(start, map[], Sample, "A", "B", Five);
    assert start["A" := Expando(map[]["B" := Copy(Five)])]
        == map[name := Expando(map[]), "A" := Expando(map["B" := Copy(Five)])];
    var final := map[name := Expando(map[]), "A" := Expando(map["B" := Copy(Five)])];
    assert [name, "A/B"][1..] == ["A/B"] && ["A/B"][1..] == [];
    assert Project(map[], false, Sample, [name, "A/B"]) == Project(placeholder, false, Sample, ["A/B"]);
    assert Project(placeholder, false, Sample, ["A/B"]) == Project(final, true, Sample, []);
  }

  /** A path naming a missing property, granted alone, gives `null`. */
  lemma MissingAloneIsNull(name: string)
    requires '/' !in name && Child(Some(Sample), name) == None
    ensures ProjectSettings([SettingsPrefix + name], Sample) == Ok(None)
  {
    var alone := [SettingsPrefix + name];
    assert AllowedSettings(alone) == [name] by {
      assert StartsWith(alone[0], SettingsPrefix) && alone[0][16..] == name;
      assert AllowedSettings(alone[1..]) == [];
    }
    WalkMissing(Sample, name);
    assert [name][1..] == [];
    assert Project(map[], false, Sample, [name]) == Project(map[name := Expando(map[])], false, Sample, []);
  }

  /** Granting a path and then a longer one below it makes the cast throw; in the
      other order the shorter path replaces the nested object by the whole value. */
  lemma NestedGrantsDependOnOrder()
    ensures ProjectSettings(["Status/Settings/A", "Status/Settings/A/B"], Sample) == Err(InvalidCast)
    ensures ProjectSettings(["Status/Settings/A/B", "Status/Settings/A"], Sample)
         == Ok(Some(Expando(map["A" := Copy(SampleA)])))
  {
    var perms := ["Status/Settings/A", "Status/Settings/A/B"];
    assert AllowedSettings(perms) == ["A", "A/B"] by {
      assert StartsWith(perms[0], SettingsPrefix) && perms[0][16..] == "A";
      assert StartsWith(perms[1], SettingsPrefix) && perms[1][16..] == "A/B";
      assert AllowedSettings(perms[1..][1..]) == [];
    }
    var swapped := ["Status/Settings/A/B", "Status/Settings/A"];
    assert AllowedSettings(swapped) == ["A/B", "A"] by {
      assert StartsWith(swapped[0], SettingsPrefix) && swapped[0][16..] == "A/B";
      assert StartsWith(swapped[1], SettingsPrefix) && swapped[1][16..] == "A";
      assert AllowedSettings(swapped[1..][1..]) == [];
    }
    SplitWithoutSeparator("A", '/');
    SplitTwo("A", "B");
    assert Child(Some(Sample), "A") == Some(SampleA);
    var copied := map["A" := Copy(SampleA)];
    assert WalkPath(map[], Sample, ["A"]) == Completed(copied);
    assert ["A", "B"][1..] == ["B"];
    assert WalkPath(copied, Sample, ["A", "B"]) == CastFailed;
    assert ["A", "A/B"][1..] == ["A/B"];

    var start := map["A" := Expando(map[])];
    assert WalkPath(map[], Sample, ["A", "B"]) == WalkPath(start, Sample, ["A", "B"]);
    WalkTwoKeys(start, map[], Sample, "A", "B", Five);
    var first := map["A" := Expando(map["B" := Copy(Five)])];
    assert start["A" := Expando(map[]["B" := Copy(Five)])] == first;
    assert WalkPath(first, Sample, ["A"]) == Completed(first["A" := Copy(SampleA)]);
    assert first["A" := Copy(SampleA)] == copied;
    assert ["A/B", "A"][1..] == ["A"] && ["A"][1..] == [];
  }
}
