/**
 * The translation table and the dotted-key lookup over it
 * (`LanguageManager.getNestedTranslation`): the key is split on `.` and the
 * table is walked one segment at a time with optional chaining, so that any
 * missing segment makes the whole lookup `undefined`.
 */
module Translations {
  import opened Options
  import Strings

  /** A parsed translation resource: nested objects with string leaves. */
  datatype Json = Str(s: string) | Obj(fields: map<string, Json>)

  /** The empty table the widget starts with (`this.translations = {}`). */
  const EmptyTable: Json := Obj(map[])

  /** One step of the reduction: `obj?.[k]`. A step into a string leaf finds nothing. */
  function Step(cur: Option<Json>, k: string): (r: Option<Json>)
    ensures r.Some? <==> cur.Some? && cur.value.Obj? && k in cur.value.fields
    ensures r.Some? ==> r.value == cur.value.fields[k]
  {
    match cur
    case Some(Obj(fields)) => if k in fields then Some(fields[k]) else None
    case _ => None
  }

  /** `path.reduce((obj, k) => obj?.[k], cur)`: a left fold of `Step`. */
  function Walk(cur: Option<Json>, path: seq<string>): (r: Option<Json>)
    ensures r.Some? ==> cur.Some?
    ensures path != [] && r.Some? ==> cur.value.Obj? && path[0] in cur.value.fields
    decreases |path|
  {
    if path == [] then cur else Walk(Step(cur, path[0]), path[1..])
  }


  /** Once the walk has found nothing, it finds nothing for the rest of the path. */
  lemma {:induction false} WalkFromNone(path: seq<string>)
    ensures Walk(None, path) == None
    decreases |path|
  {
    if path != [] {
      WalkFromNone(path[1..]);
    }
  }

  /** Walking a concatenated path is walking its two halves in turn. */
  lemma {:induction false} WalkAppend(cur: Option<Json>, p: seq<string>, q: seq<string>)
    ensures Walk(cur, p + q) == Walk(Walk(cur, p), q)
    decreases |p|
  {
    if p != [] {
      assert (p + q)[0] == p[0];
      assert (p + q)[1..] == p[1..] + q;
      WalkAppend(Step(cur, p[0]), p[1..], q);
    } else {
      assert p + q == q;
    }
  }

  /** Segment `k` is present at the node the walk has reached. */
  predicate Present(cur: Option<Json>, k: string)
  {
    cur.Some? && cur.value.Obj? && k in cur.value.fields
  }

  /** Every segment of `path` is present at the node reached by the segments before it. */
  predicate AllPresent(table: Json, path: seq<string>)
  {
    forall i :: 0 <= i < |path| ==> Present(Walk(Some(table), path[..i]), path[i])
  }

  /**
   * The walk finds a value exactly when every segment is present at the node
   * reached by the segments before it; one missing segment anywhere yields
   * nothing.
   */
  lemma {:induction false} WalkFindsIffAllPresent(table: Json, path: seq<string>)
    ensures Walk(Some(table), path).Some? <==> AllPresent(table, path)
    decreases |path|
  {
    if path != [] {
      var next := Step(Some(table), path[0]);
      assert path[..0] == [];
      if next == None {
        WalkFromNone(path[1..]);
        assert !Present(Walk(Some(table), path[..0]), path[0]);
      } else {
        var rest := path[1..];
        WalkFindsIffAllPresent(next.value, rest);
        forall i | 0 <= i < |rest|
          ensures Walk(Some(table), path[..i + 1]) == Walk(next, rest[..i])
        {
          assert path[..i + 1][0] == path[0];
          assert path[..i + 1][1..] == rest[..i];
        }
        if Walk(Some(table), path).Some? {
          forall i | 0 <= i < |path|
            ensures Present(Walk(Some(table), path[..i]), path[i])
          {
            if i > 0 {
              assert path[i] == rest[i - 1];
            }
          }
        } else {
          var j :| 0 <= j < |rest| && !Present(Walk(next, rest[..j]), rest[j]);
          assert !Present(Walk(Some(table), path[..j + 1]), path[j + 1]);
        }
      }
    }
  }

  /**
   * `getNestedTranslation(key)` over the table `table`: it finds a value
   * exactly when every segment of the key is present at the node reached by
   * the segments before it.
   */
  function NestedTranslation(table: Json, key: string): (r: Option<Json>)
    ensures r.Some? <==> AllPresent(table, Strings.Split(key, '.'))
  {
    var segments := Strings.Split(key, '.');
    WalkFindsIffAllPresent(table, segments);
    Walk(Some(table), segments)
  }

  /** The empty table the widget starts with finds nothing for any key. */
  lemma EmptyTableFindsNothing(key: string)
    ensures NestedTranslation(EmptyTable, key) == None
  {
    var segments := Strings.Split(key, '.');
    assert !Present(Walk(Some(EmptyTable), segments[..0]), segments[0]) by {
      assert segments[..0] == [];
    }
  }

  /**
   * The text `applyTranslations` writes for `key`, or `None` when it leaves the
   * element alone: only a truthy lookup result replaces the text. A nested
   * object is truthy and is written as JavaScript converts it to a string.
   */
  function TextFor(table: Json, key: string): (r: Option<string>)
    ensures r.Some? ==> r.value != ""
    ensures r.Some? <==> NestedTranslation(table, key).Some? && NestedTranslation(table, key) != Some(Str(""))
    ensures r.Some? && NestedTranslation(table, key).value.Str? ==> NestedTranslation(table, key) == Some(Str(r.value))
    ensures r.Some? && NestedTranslation(table, key).value.Obj? ==> r.value == "[object Object]"
  {
    match NestedTranslation(table, key)
    case Some(Str(s)) => if s == "" then None else Some(s)
    case Some(Obj(_)) => Some("[object Object]")
    case None => None
  }

  /** A lookup through the segments of `key` finds what the table holds there. */
  lemma {:induction false} NestedTranslationOfJoin(table: Json, segments: seq<string>)
    requires |segments| >= 1
    requires forall p <- segments :: '.' !in p
    ensures NestedTranslation(table, Strings.Join(segments, '.')) == Walk(Some(table), segments)
  {
    Strings.SplitJoin(segments, '.');
  }

  /** The two lookups spelled out for the table `{"a": {"b": "Hallo"}}`. */
  lemma HalloExample()
    ensures var table := Obj(map["a" := Obj(map["b" := Str("Hallo")])]);
      NestedTranslation(table, "a.b") == Some(Str("Hallo")) &&
      NestedTranslation(table, "a.c") == None &&
      TextFor(table, "a.b") == Some("Hallo") &&
      TextFor(table, "a.c") == None
  {
    var table := Obj(map["a" := Obj(map["b" := Str("Hallo")])]);
    NestedTranslationOfJoin(table, ["a", "b"]);
    NestedTranslationOfJoin(table, ["a", "c"]);
    assert Strings.Join(["a", "b"], '.') == "a.b";
    assert Strings.Join(["a", "c"], '.') == "a.c";
    assert ["a", "b"][1..] == ["b"];
    assert ["a", "c"][1..] == ["c"];
  }
}
