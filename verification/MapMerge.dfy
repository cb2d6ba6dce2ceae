/**
 What it means to merge a sequence of objects under a conflict policy, and the
 loop of aggregator.go that does it one key at a time, in whatever order Go's map
 iteration yields the keys.
 */
module MapMerge {

  datatype Conflict = Overwrite | Fail | First | Prefer

  datatype Rule = Rule(conflict: Conflict, preferred: int)

  /** A merged value and the index of the object it came from. */
  datatype Field<V> = Field(value: V, owner: int)

  predicate Contributes<V>(objs: seq<map<string, V>>, k: string, i: int) {
    0 <= i < |objs| && k in objs[i]
  }

  /** Object i supplies the value of key k. */
  ghost predicate Wins<V>(rule: Rule, objs: seq<map<string, V>>, k: string, i: int) {
    Contributes(objs, k, i) &&
    match rule.conflict
    case Overwrite => forall j | i < j < |objs| :: !Contributes(objs, k, j)
    case Prefer =>
      if Contributes(objs, k, rule.preferred) then i == rule.preferred
      else forall j | 0 <= j < i :: !Contributes(objs, k, j)
    case _ => forall j | 0 <= j < i :: !Contributes(objs, k, j)
  }

  ghost predicate FieldMeaning<V>(rule: Rule, objs: seq<map<string, V>>, k: string, fields: map<string, Field<V>>) {
    if k in fields then
      && Wins(rule, objs, k, fields[k].owner)
      && fields[k].value == objs[fields[k].owner][k]
    else
      forall i :: !Contributes(objs, k, i)
  }

  /** fields is the merge of objs: the union of the keys, each with its winner's value. */
  ghost predicate Merges<V>(rule: Rule, objs: seq<map<string, V>>, fields: map<string, Field<V>>) {
    forall k :: FieldMeaning(rule, objs, k, fields)
  }

  /** Some object before the i-th already has one of its keys. */
  ghost predicate Clashes<V>(objs: seq<map<string, V>>, i: int) {
    exists j, k :: j < i && Contributes(objs, k, i) && Contributes(objs, k, j)
  }

  /** The merge is determined by the objects alone, whatever the iteration order was. */
  lemma MergesUnique<V>(rule: Rule, objs: seq<map<string, V>>, f: map<string, Field<V>>, g: map<string, Field<V>>)
    requires Merges(rule, objs, f) && Merges(rule, objs, g)
    ensures f == g
  {
    forall k
      ensures k in f <==> k in g
      ensures k in f && k in g ==> f[k] == g[k]
    {
      assert FieldMeaning(rule, objs, k, f) && FieldMeaning(rule, objs, k, g);
      if k in f && k in g {
        var i, j := f[k].owner, g[k].owner;
        assert Contributes(objs, k, i) && Contributes(objs, k, j);
      }
    }
  }

  lemma ContributesSnoc<V>(objs: seq<map<string, V>>, obj: map<string, V>, k: string)
    ensures forall i :: Contributes(objs + [obj], k, i) <==>
                        Contributes(objs, k, i) || (i == |objs| && k in obj)
  {
  }

  lemma KeyAbsent<V>(rule: Rule, objs: seq<map<string, V>>, obj: map<string, V>, k: string,
                     fields: map<string, Field<V>>)
    requires FieldMeaning(rule, objs, k, fields) && k !in obj
    ensures FieldMeaning(rule, objs + [obj], k, fields)
  {
    ContributesSnoc(objs, obj, k);
  }

  /** What applyConflictPolicy leaves under key k. */
  function Applied<V>(rule: Rule, fields: map<string, Field<V>>, k: string, incoming: Field<V>): map<string, Field<V>> {
    if k !in fields then fields[k := incoming]
    else
      match rule.conflict
      case Overwrite => fields[k := incoming]
      case First | Fail => fields
      case Prefer =>
        if fields[k].owner != rule.preferred && incoming.owner == rule.preferred
        then fields[k := incoming] else fields
  }

  lemma KeyPresent<V>(rule: Rule, objs: seq<map<string, V>>, obj: map<string, V>, k: string,
                      fields: map<string, Field<V>>)
    requires FieldMeaning(rule, objs, k, fields) && k in obj
    ensures FieldMeaning(rule, objs + [obj], k, Applied(rule, fields, k, Field(obj[k], |objs|)))
  {
    ContributesSnoc(objs, obj, k);
    if k in fields {
      assert Contributes(objs, k, fields[k].owner);
    }
  }

  /**
   Folds one more object into fields. The next key is chosen arbitrarily; a clash
   under policy `error` is found whatever the choice, and only then.
   */
  method MergeObject<V>(rule: Rule, ghost objs: seq<map<string, V>>, obj: map<string, V>, idx: nat,
                        fields: map<string, Field<V>>)
    returns (out: map<string, Field<V>>, clash: bool)
    requires idx == |objs| && Merges(rule, objs, fields)
    ensures clash <==> rule.conflict.Fail? && Clashes(objs + [obj], idx)
    ensures !clash ==> Merges(rule, objs + [obj], out)
  {
    out := fields;
    var pending := obj.Keys;
    while pending != {}
      invariant pending <= obj.Keys
      invariant forall k | k in pending || k !in obj ::
                  (k in out <==> k in fields) && (k in out ==> out[k] == fields[k])
      invariant forall k | k !in pending && k in obj :: FieldMeaning(rule, objs + [obj], k, out)
      invariant forall k | k !in pending && k in obj && rule.conflict.Fail? :: k !in fields
      decreases |pending|
    {
      var k :| k in pending;
      pending := pending - {k};
      assert FieldMeaning(rule, objs, k, fields);
      if k in out && rule.conflict.Fail? {
        assert Contributes(objs + [obj], k, idx) && Contributes(objs + [obj], k, fields[k].owner);
        return out, true;
      }
      KeyPresent(rule, objs, obj, k, out);
      ghost var before := out;
      out := Applied(rule, out, k, Field(obj[k], idx));
      assert forall j | j != k :: (j in out <==> j in before) && (j in out ==> out[j] == before[j]);
    }
    forall k ensures FieldMeaning(rule, objs + [obj], k, out) {
      if k !in obj {
        assert FieldMeaning(rule, objs, k, fields);
        assert FieldMeaning(rule, objs, k, out);
        KeyAbsent(rule, objs, obj, k, out);
      }
    }
    clash := false;
    forall j, k | rule.conflict.Fail? && j < idx && Contributes(objs + [obj], k, idx)
      ensures !Contributes(objs + [obj], k, j)
    {
      assert FieldMeaning(rule, objs, k, fields);
      ContributesSnoc(objs, obj, k);
    }
  }

  // ------------------------------------------------- Later entries win

  /** Plain map writes, entry by entry: the last writer of a key wins. */
  function Override<V>(objs: seq<map<string, V>>): map<string, V> {
    if objs == [] then map[] else Override(objs[..|objs| - 1]) + objs[|objs| - 1]
  }

  /** Override is the merge under policy `overwrite`. */
  lemma {:induction false} OverrideMeaning<V>(objs: seq<map<string, V>>, k: string)
    ensures k in Override(objs) ==> exists i :: Wins(Rule(Overwrite, -1), objs, k, i) && Override(objs)[k] == objs[i][k]
    ensures k !in Override(objs) ==> forall i :: !Contributes(objs, k, i)
  {
    if objs != [] {
      var n := |objs| - 1;
      OverrideMeaning(objs[..n], k);
      if k in objs[n] {
        assert Wins(Rule(Overwrite, -1), objs, k, n);
      } else {
        assert objs == objs[..n] + [objs[n]];
        ContributesSnoc(objs[..n], objs[n], k);
        if k in Override(objs) {
          var i :| Wins(Rule(Overwrite, -1), objs[..n], k, i) && Override(objs[..n])[k] == objs[..n][i][k];
          assert Wins(Rule(Overwrite, -1), objs, k, i);
        }
      }
    }
  }
}
