/** Request profiles are written as JSON documents: a stored profile with an override tree merged
    into it. */
module JsonMerge {
  import opened Basics

  datatype Json =
    | Null
    | Bool(b: bool)
    | Number(n: real)
    | Text(s: string)
    | Array(items: seq<Json>)
    | Object(fields: map<string, Json>)

  /** The value reached from `v` by a chain of object keys. */
  function Get(v: Json, path: seq<string>): Option<Json> {
    if path == [] then Some(v)
    else if v.Object? && path[0] in v.fields then Get(v.fields[path[0]], path[1..])
    else None
  }

  /** What an override leaves in place of `base`: the meaning of the in-place merge. */
  function Merged(base: Json, overrides: Json): Json
    decreases overrides
  {
    if base.Object? && overrides.Object? then
      Object(map k | k in base.fields.Keys + overrides.fields.Keys ::
               if k in overrides.fields
               then Merged(if k in base.fields then base.fields[k] else Null, overrides.fields[k])
               else base.fields[k])
    else overrides
  }

  /** The merge as it is carried out: one override entry at a time, creating a missing entry as null
      before descending into it. */
  method MergeOverrides(base: Json, overrides: Json) returns (merged: Json)
    ensures merged == Merged(base, overrides)
    decreases overrides
  {
    if base.Object? && overrides.Object? {
      var fields := base.fields;
      var todo := overrides.fields.Keys;
      while todo != {}
        invariant todo <= overrides.fields.Keys
        invariant fields.Keys == base.fields.Keys + (overrides.fields.Keys - todo)
        invariant forall k :: k in fields ==>
                    fields[k] == if k in overrides.fields && k !in todo
                                 then Merged(if k in base.fields then base.fields[k] else Null, overrides.fields[k])
                                 else base.fields[k]
      {
        var key :| key in todo;
        var entry := if key in fields then fields[key] else Null;
        var value := MergeOverrides(entry, overrides.fields[key]);
        fields := fields[key := value];
        todo := todo - {key};
      }
      merged := Object(fields);
    } else {
      merged := overrides;
    }
  }

  lemma {:induction false} MergeSelf(v: Json)
    ensures Merged(v, v) == v
    decreases v
  {
    if v.Object? {
      forall k | k in v.fields ensures Merged(v.fields[k], v.fields[k]) == v.fields[k] {
        MergeSelf(v.fields[k]);
      }
      assert Merged(v, v).fields == v.fields;
    }
  }

  /** Applying the same override twice is applying it once. */
  lemma {:induction false} MergeIdempotent(base: Json, overrides: Json)
    ensures Merged(Merged(base, overrides), overrides) == Merged(base, overrides)
    decreases overrides
  {
    if base.Object? && overrides.Object? {
      var once := Merged(base, overrides);
      var twice := Merged(once, overrides);
      forall k | k in once.fields ensures twice.fields[k] == once.fields[k] {
        if k in overrides.fields {
          MergeIdempotent(if k in base.fields then base.fields[k] else Null, overrides.fields[k]);
        }
      }
      assert twice.fields == once.fields;
    } else {
      MergeSelf(overrides);
    }
  }

  /** Where the override holds something that cannot be merged into the base (a scalar, null, an array, or
      an object facing a missing or non-object base), the result holds exactly the override's value. */
  lemma {:induction false} OverrideReplaces(base: Json, overrides: Json, path: seq<string>)
    requires Get(overrides, path).Some?
    requires !Get(overrides, path).value.Object? || Get(base, path).None? || !Get(base, path).value.Object?
    ensures Get(Merged(base, overrides), path) == Get(overrides, path)
    decreases overrides
  {
    if path != [] && base.Object? && overrides.Object? {
      var k := path[0];
      OverrideReplaces(if k in base.fields then base.fields[k] else Null, overrides.fields[k], path[1..]);
    }
  }

  /** A path that leaves the override inside an object the base also has reads as it did before, value or
      absence alike. */
  lemma {:induction false} UntouchedPathKept(base: Json, overrides: Json, path: seq<string>, at: nat)
    requires at < |path|
    requires Get(base, path[..at]).Some? && Get(base, path[..at]).value.Object?
    requires Get(overrides, path[..at]).Some? && Get(overrides, path[..at]).value.Object?
    requires path[at] !in Get(overrides, path[..at]).value.fields
    ensures Get(Merged(base, overrides), path) == Get(base, path)
    decreases overrides
  {
    if at > 0 {
      var k := path[0];
      assert path[..at][0] == k && path[..at][1..] == path[1..][..at - 1];
      UntouchedPathKept(base.fields[k], overrides.fields[k], path[1..], at - 1);
    } else {
      assert path[..0] == [];
    }
  }

  /** Where both sides hold objects, the merge holds an object with the keys of both. */
  lemma {:induction false} ObjectsMerge(base: Json, overrides: Json, path: seq<string>)
    requires Get(base, path).Some? && Get(base, path).value.Object?
    requires Get(overrides, path).Some? && Get(overrides, path).value.Object?
    ensures Get(Merged(base, overrides), path).Some? && Get(Merged(base, overrides), path).value.Object?
    ensures Get(Merged(base, overrides), path).value.fields.Keys
         == Get(base, path).value.fields.Keys + Get(overrides, path).value.fields.Keys
    decreases overrides
  {
    if path != [] {
      ObjectsMerge(base.fields[path[0]], overrides.fields[path[0]], path[1..]);
    }
  }

  // ----- unknown fields -----

  datatype Field = Key(name: string) | At(index: nat)

  /** The value reached through object keys and array positions. */
  function Reach(v: Json, path: seq<Field>): Option<Json> {
    if path == [] then Some(v)
    else match path[0]
      case Key(name) => if v.Object? && name in v.fields then Reach(v.fields[name], path[1..]) else None
      case At(index) => if v.Array? && index < |v.items| then Reach(v.items[index], path[1..]) else None
  }

  /** The check of a raw profile against the document parsed from it: every key of an object must be known;
      arrays are compared as far as the shorter one goes, other pairs are not compared. */
  predicate Accepted(raw: Json, normalized: Json)
    decreases raw
  {
    if raw.Object? && normalized.Object? then
      forall k | k in raw.fields :: k in normalized.fields && Accepted(raw.fields[k], normalized.fields[k])
    else if raw.Array? && normalized.Array? then
      forall i | 0 <= i < |raw.items| && i < |normalized.items| :: Accepted(raw.items[i], normalized.items[i])
    else true
  }

  /** At `path` the raw profile has an object with a key that the object there in the document lacks. */
  ghost predicate UnknownAt(raw: Json, normalized: Json, path: seq<Field>) {
    var r, n := Reach(raw, path), Reach(normalized, path);
    r.Some? && n.Some? && r.value.Object? && n.value.Object? && !(r.value.fields.Keys <= n.value.fields.Keys)
  }

  lemma {:induction false} AcceptedKnows(raw: Json, normalized: Json, path: seq<Field>)
    requires Accepted(raw, normalized)
    ensures !UnknownAt(raw, normalized, path)
    decreases |path|
  {
    if path != [] {
      match path[0]
      case Key(k) =>
        if raw.Object? && normalized.Object? && k in raw.fields {
          AcceptedKnows(raw.fields[k], normalized.fields[k], path[1..]);
        }
      case At(i) =>
        if raw.Array? && normalized.Array? && i < |raw.items| && i < |normalized.items| {
          AcceptedKnows(raw.items[i], normalized.items[i], path[1..]);
        }
    }
  }

  lemma {:induction false} RejectedHasUnknown(raw: Json, normalized: Json) returns (path: seq<Field>)
    requires !Accepted(raw, normalized)
    ensures UnknownAt(raw, normalized, path)
    decreases raw
  {
    if raw.Object? {
      var k :| k in raw.fields && !(k in normalized.fields && Accepted(raw.fields[k], normalized.fields[k]));
      if k in normalized.fields {
        var rest := RejectedHasUnknown(raw.fields[k], normalized.fields[k]);
        path := [Key(k)] + rest;
        assert path[1..] == rest;
      } else {
        path := [];
      }
    } else {
      var i :| 0 <= i < |raw.items| && i < |normalized.items| && !Accepted(raw.items[i], normalized.items[i]);
      var rest := RejectedHasUnknown(raw.items[i], normalized.items[i]);
      path := [At(i)] + rest;
      assert path[1..] == rest;
    }
  }

  /** A profile is rejected exactly when some object in it has a key that the document lacks at that place. */
  lemma RejectsExactlyUnknownFields(raw: Json, normalized: Json)
    ensures Accepted(raw, normalized) <==> forall path :: !UnknownAt(raw, normalized, path)
  {
    if Accepted(raw, normalized) {
      forall path ensures !UnknownAt(raw, normalized, path) {
        AcceptedKnows(raw, normalized, path);
      }
    } else {
      var path := RejectedHasUnknown(raw, normalized);
    }
  }
}
