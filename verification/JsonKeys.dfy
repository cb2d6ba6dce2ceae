/**
 camelify and snakeify on whole JSON trees. Go iterates a map in random order, so
 when two keys of an object are renamed to the same key either value may survive;
 Renames relates a tree to every result that can come out.
 */
module JsonKeys {
  import opened Json
  import opened KeyCasing

  function CamelKey(s: string): string {
    CamelOf(Split(s))
  }

  /** r is a possible result of renaming every key of v by f. */
  ghost predicate Renames(f: string -> string, v: Json, r: Json)
    decreases v
  {
    match v
    case Obj(m) =>
      && r.Obj?
      && (forall k | k in m :: f(k) in r.fields)
      && (forall k' | k' in r.fields :: exists k :: k in m && f(k) == k' && Renames(f, m[k], r.fields[k']))
    case Arr(items) =>
      && r.Arr? && |r.items| == |items|
      && (forall i | 0 <= i < |items| :: Renames(f, items[i], r.items[i]))
    case _ => r == v
  }

  method TransformKeys(f: string -> string, v: Json) returns (r: Json)
    ensures Renames(f, v, r)
    decreases v
  {
    match v {
      case Obj(m) =>
        var out: map<string, Json> := map[];
        var pending := m.Keys;
        while pending != {}
          invariant pending <= m.Keys
          invariant forall k | k in m && k !in pending :: f(k) in out
          invariant forall k' | k' in out :: exists k :: k in m && f(k) == k' && Renames(f, m[k], out[k'])
          decreases |pending|
        {
          var k :| k in pending;
          var child := TransformKeys(f, m[k]);
          out := out[f(k) := child];
          pending := pending - {k};
        }
        r := Obj(out);
      case Arr(items) =>
        var out: seq<Json> := [];
        for i := 0 to |items|
          invariant |out| == i
          invariant forall j | 0 <= j < i :: Renames(f, items[j], out[j])
        {
          var item := TransformKeys(f, items[i]);
          out := out + [item];
        }
        r := Arr(out);
      case _ => r := v;
    }
  }

  // ---------------------------------------------------------- Inverses

  /** At every depth, g undoes f on the keys of v. */
  ghost predicate Undone(f: string -> string, g: string -> string, v: Json)
    decreases v
  {
    match v
    case Obj(m) => forall k | k in m :: g(f(k)) == k && Undone(f, g, m[k])
    case Arr(items) => forall i | 0 <= i < |items| :: Undone(f, g, items[i])
    case _ => true
  }

  /** At every depth, no two keys of an object of v are renamed to the same key. */
  ghost predicate CollisionFree(f: string -> string, v: Json)
    decreases v
  {
    match v
    case Obj(m) =>
      && (forall k, l | k in m && l in m :: f(k) == f(l) ==> k == l)
      && (forall k | k in m :: CollisionFree(f, m[k]))
    case Arr(items) => forall i | 0 <= i < |items| :: CollisionFree(f, items[i])
    case _ => true
  }

  lemma {:induction false} UndoneIsCollisionFree(f: string -> string, g: string -> string, v: Json)
    requires Undone(f, g, v)
    ensures CollisionFree(f, v)
    decreases v
  {
    match v
    case Obj(m) =>
      forall k | k in m ensures CollisionFree(f, m[k]) {
        UndoneIsCollisionFree(f, g, m[k]);
      }
      forall k, l | k in m && l in m && f(k) == f(l) ensures k == l {
        assert g(f(k)) == k && g(f(l)) == l;
      }
    case Arr(items) =>
      forall i | 0 <= i < |items| ensures CollisionFree(f, items[i]) {
        UndoneIsCollisionFree(f, g, items[i]);
      }
    case _ =>
  }

  lemma {:induction false} RenameAndBack(f: string -> string, g: string -> string, v: Json, c: Json, r: Json)
    requires Undone(f, g, v) && Renames(f, v, c) && Renames(g, c, r)
    ensures r == v
    decreases v, 1
  {
    match v
    case Obj(m) =>
      forall k | k in r.fields ensures k in m && r.fields[k] == m[k] {
        FieldAndBack(f, g, m, c.fields, r.fields, k);
      }
      forall k | k in m ensures k in r.fields {
        assert f(k) in c.fields && g(f(k)) in r.fields;
      }
      assert r.fields == m;
    case Arr(items) =>
      forall i | 0 <= i < |items| ensures r.items[i] == items[i] {
        RenameAndBack(f, g, items[i], c.items[i], r.items[i]);
      }
      assert r.items == items;
    case _ =>
  }

  lemma {:induction false} FieldAndBack(f: string -> string, g: string -> string, m: map<string, Json>,
                                        c: map<string, Json>, r: map<string, Json>, k: string)
    requires Undone(f, g, Obj(m)) && Renames(f, Obj(m), Obj(c)) && Renames(g, Obj(c), Obj(r)) && k in r
    ensures k in m && r[k] == m[k]
    decreases Obj(m), 0
  {
    var mid :| mid in c && g(mid) == k && Renames(g, c[mid], r[k]);
    var l :| l in m && f(l) == mid && Renames(f, m[l], c[mid]);
    RenameAndBack(f, g, m[l], c[mid], r[k]);
  }

  /** r can come out of camelify followed by snakeify, with c in between. */
  ghost predicate ThereAndBack(v: Json, c: Json, r: Json) {
    Renames(CamelKey, v, c) && Renames(CamelToSnake, c, r)
  }

  /** Every key of v, at every depth, satisfies p. */
  ghost predicate AllKeys(p: string -> bool, v: Json)
    decreases v
  {
    match v
    case Obj(m) => forall k | k in m :: p(k) && AllKeys(p, m[k])
    case Arr(items) => forall i | 0 <= i < |items| :: AllKeys(p, items[i])
    case _ => true
  }

  function Back(k: string): string {
    CamelToSnake(CamelKey(k))
  }

  lemma {:induction false} RestorableIsUndone(v: Json)
    requires AllKeys(Restorable, v)
    ensures Undone(CamelKey, CamelToSnake, v)
    decreases v
  {
    match v
    case Obj(m) =>
      forall k | k in m ensures CamelToSnake(CamelKey(k)) == k && Undone(CamelKey, CamelToSnake, m[k]) {
        KeyRoundTripExactly(k);
        RestorableIsUndone(m[k]);
      }
    case Arr(items) =>
      forall i | 0 <= i < |items| ensures Undone(CamelKey, CamelToSnake, items[i]) {
        RestorableIsUndone(items[i]);
      }
    case _ =>
  }

  lemma LengthBound(keys: set<string>) returns (bound: nat)
    ensures forall k | k in keys :: |k| <= bound
  {
    bound := 0;
    var pending := keys;
    while pending != {}
      invariant pending <= keys
      invariant forall k | k in keys && k !in pending :: |k| <= bound
      decreases |pending|
    {
      var k :| k in pending;
      bound := if |k| > bound then |k| else bound;
      pending := pending - {k};
    }
  }

  /** f never makes a key of the set longer, and changes none without making it shorter. */
  ghost predicate Shrinks(f: string -> string, keys: set<string>) {
    forall k | k in keys :: |f(k)| <= |k| && (|f(k)| == |k| ==> f(k) == k)
  }

  /** Every key of the set is the image of one of them. */
  ghost predicate Covered(f: string -> string, keys: set<string>) {
    forall k {:trigger HasOrigin(f, keys, k)} | k in keys :: HasOrigin(f, keys, k)
  }

  ghost predicate HasOrigin(f: string -> string, keys: set<string>, k: string) {
    exists l :: l in keys && f(l) == k
  }

  /** No key can make up for another one: the longest key that changes has no replacement. */
  lemma {:induction false} CoveredKeyReturns(f: string -> string, keys: set<string>, k: string, bound: nat)
    requires Covered(f, keys) && Shrinks(f, keys) && k in keys
    requires forall l | l in keys :: |l| <= bound
    ensures f(k) == k
    decreases bound - |k|
  {
    assert HasOrigin(f, keys, k);
    var l :| l in keys && f(l) == k;
    if |k| < |l| {
      CoveredKeyReturns(f, keys, l, bound);
    }
  }

  /** How a field of the result came about. */
  lemma FieldOrigin(m: map<string, Json>, c: Json, r: map<string, Json>, k: string) returns (l: string)
    requires ThereAndBack(Obj(m), c, Obj(r)) && k in r
    ensures l in m && CamelKey(l) in c.fields && Back(l) == k
    ensures ThereAndBack(m[l], c.fields[CamelKey(l)], r[k])
  {
    var mid :| mid in c.fields && CamelToSnake(mid) == k && Renames(CamelToSnake, c.fields[mid], r[k]);
    l :| l in m && CamelKey(l) == mid && Renames(CamelKey, m[l], c.fields[mid]);
  }

  lemma LowerKeysShrink(keys: set<string>)
    requires forall k | k in keys :: NoUpper(k)
    ensures Shrinks(Back, keys)
  {
    forall k | k in keys ensures |Back(k)| <= |k| && (|Back(k)| == |k| ==> Back(k) == k) {
      KeyNeverGrows(k);
    }
  }

  lemma ResultIsCovered(m: map<string, Json>, c: Json)
    requires ThereAndBack(Obj(m), c, Obj(m))
    ensures Covered(Back, m.Keys)
  {
    forall k | k in m.Keys ensures HasOrigin(Back, m.Keys, k) {
      var l := FieldOrigin(m, c, m, k);
      assert l in m.Keys;
    }
  }

  /** An object that comes back as it was: its keys have no upper case, and each returns. */
  lemma KeysReturn(m: map<string, Json>, c: Json)
    requires ThereAndBack(Obj(m), c, Obj(m))
    ensures forall k | k in m :: Back(k) == k
  {
    forall k | k in m.Keys ensures NoUpper(k) {
      var l := FieldOrigin(m, c, m, k);
      KeyNeverGrows(l);
    }
    LowerKeysShrink(m.Keys);
    ResultIsCovered(m, c);
    var bound := LengthBound(m.Keys);
    forall k | k in m ensures Back(k) == k {
      CoveredKeyReturns(Back, m.Keys, k, bound);
    }
  }

  lemma {:induction false} UnchangedIsRestorable(v: Json, c: Json)
    requires ThereAndBack(v, c, v)
    ensures AllKeys(Restorable, v)
    decreases v
  {
    match v
    case Obj(m) =>
      KeysReturn(m, c);
      forall k | k in m ensures Restorable(k) && AllKeys(Restorable, m[k]) {
        var l := FieldOrigin(m, c, m, k);
        assert l == k;
        KeyRoundTripExactly(k);
        UnchangedIsRestorable(m[k], c.fields[CamelKey(k)]);
      }
    case Arr(items) =>
      forall i | 0 <= i < |items| ensures AllKeys(Restorable, items[i]) {
        UnchangedIsRestorable(items[i], c.items[i]);
      }
    case _ =>
  }

  /**
   On every tree, and for every iteration order of every map: snakeify after camelify
   gives the tree back exactly when every key is restorable, and then camelify never
   merges two keys.
   */
  lemma TreeRoundTrip(v: Json, c: Json, r: Json)
    requires ThereAndBack(v, c, r)
    ensures r == v <==> AllKeys(Restorable, v)
    ensures r == v ==> CollisionFree(CamelKey, v)
  {
    if AllKeys(Restorable, v) {
      RestorableIsUndone(v);
      UndoneIsCollisionFree(CamelKey, CamelToSnake, v);
      RenameAndBack(CamelKey, CamelToSnake, v, c, r);
    }
    if r == v {
      UnchangedIsRestorable(v, c);
    }
  }

  /** A key of snake words that join unambiguously. */
  ghost predicate SnakeKey(k: string) {
    exists ws :: ws != [] && Words(ws) && Reversible(ws) && k == Snake(ws)
  }

  lemma {:induction false} SnakeKeysRestorable(v: Json)
    requires AllKeys(SnakeKey, v)
    ensures AllKeys(Restorable, v)
    decreases v
  {
    match v
    case Obj(m) =>
      forall k | k in m ensures Restorable(k) && AllKeys(Restorable, m[k]) {
        var ws :| ws != [] && Words(ws) && Reversible(ws) && k == Snake(ws);
        KeyRoundTrip(ws);
        KeyRoundTripExactly(k);
        SnakeKeysRestorable(m[k]);
      }
    case Arr(items) =>
      forall i | 0 <= i < |items| ensures AllKeys(Restorable, items[i]) {
        SnakeKeysRestorable(items[i]);
      }
    case _ =>
  }

  /** So trees of such snake keys always come back. */
  lemma SnakeTreeRoundTrip(v: Json, c: Json, r: Json)
    requires AllKeys(SnakeKey, v) && ThereAndBack(v, c, r)
    ensures r == v && CollisionFree(CamelKey, v)
  {
    SnakeKeysRestorable(v);
    TreeRoundTrip(v, c, r);
  }

  // -------------------------------------------------------- Idempotence

  ghost predicate Fixed(f: string -> string, v: Json)
    decreases v
  {
    match v
    case Obj(m) => forall k | k in m :: f(k) == k && Fixed(f, m[k])
    case Arr(items) => forall i | 0 <= i < |items| :: Fixed(f, items[i])
    case _ => true
  }

  ghost predicate Idempotent(f: string -> string) {
    forall s :: f(f(s)) == f(s)
  }

  lemma {:induction false} OutputIsFixed(f: string -> string, v: Json, r: Json)
    requires Idempotent(f) && Renames(f, v, r)
    ensures Fixed(f, r)
    decreases v
  {
    match v
    case Obj(m) =>
      forall k' | k' in r.fields ensures f(k') == k' && Fixed(f, r.fields[k']) {
        var k :| k in m && f(k) == k' && Renames(f, m[k], r.fields[k']);
        OutputIsFixed(f, m[k], r.fields[k']);
      }
    case Arr(items) =>
      forall i | 0 <= i < |items| ensures Fixed(f, r.items[i]) {
        OutputIsFixed(f, items[i], r.items[i]);
      }
    case _ =>
  }

  lemma {:induction false} FixedRenamesToItself(f: string -> string, v: Json, r: Json)
    requires Fixed(f, v) && Renames(f, v, r)
    ensures r == v
    decreases v
  {
    match v
    case Obj(m) =>
      forall k' | k' in r.fields ensures k' in m && r.fields[k'] == m[k'] {
        var k :| k in m && f(k) == k' && Renames(f, m[k], r.fields[k']);
        FixedRenamesToItself(f, m[k], r.fields[k']);
      }
      forall k | k in m ensures k in r.fields {
        assert f(k) == k;
      }
      assert r.fields == m;
    case Arr(items) =>
      forall i | 0 <= i < |items| ensures r.items[i] == items[i] {
        FixedRenamesToItself(f, items[i], r.items[i]);
      }
      assert r.items == items;
    case _ =>
  }

  lemma {:induction false} SplitPiecesClean(s: string)
    ensures forall p | p in Split(s) :: '_' !in p
  {
    if s != "" {
      var rest := Split(s[1..]);
      SplitPiecesClean(s[1..]);
      assert rest[0] in rest;
      forall p | p in Split(s) ensures '_' !in p {
        if p !in rest && s[0] != '_' {
          assert p == [s[0]] + rest[0];
        }
      }
    }
  }

  lemma {:induction false} ConcatClean(parts: seq<string>)
    requires forall p | p in parts :: '_' !in p
    ensures '_' !in Concat(parts)
  {
    if parts != [] {
      assert parts[0] in parts;
      ConcatClean(parts[1..]);
    }
  }

  lemma CamelKeyClean(s: string)
    ensures '_' !in CamelKey(s)
  {
    SplitPiecesClean(s);
    var parts := Split(s);
    assert parts[0] in parts;
    var caps := Capitals(parts[1..]);
    forall p | p in caps ensures '_' !in p {
      var i :| 0 <= i < |caps| && caps[i] == p;
      var q := parts[1..][i];
      assert q == parts[i + 1] && q in parts;
      assert forall j | 0 <= j < |q| :: q[j] != '_' by {
        assert forall j | 0 <= j < |q| :: q[j] in q;
      }
    }
    ConcatClean(caps);
  }

  lemma {:induction false} NoUnderscoreSplit(s: string)
    requires '_' !in s
    ensures Split(s) == [s]
  {
    SplitPiece(s, "");
    assert s + "" == s && Split("") == [""];
  }

  lemma {:induction false} NoUpperNoBreak(s: string)
    requires NoUpper(s)
    ensures Pass1(s) == s && Pass2(s) == s
    decreases |s|
  {
    if s != "" {
      NoUpperNoBreak(s[1..]);
    }
  }

  lemma CasingIsIdempotent()
    ensures Idempotent(CamelKey) && Idempotent(CamelToSnake)
  {
    forall s ensures CamelKey(CamelKey(s)) == CamelKey(s) {
      CamelKeyClean(s);
      NoUnderscoreSplit(CamelKey(s));
      assert [CamelKey(s)][1..] == [] && Capitals([]) == [];
    }
    forall s ensures CamelToSnake(CamelToSnake(s)) == CamelToSnake(s) {
      LowerAllLow(Pass2(Pass1(s)));
      NoUpperNoBreak(CamelToSnake(s));
      LowerAllFixed(CamelToSnake(s));
    }
  }

  /** Each plugin leaves its own output alone. */
  lemma TransformTwice(snake: bool, v: Json, r: Json, r2: Json)
    requires var f := if snake then CamelToSnake else CamelKey; Renames(f, v, r) && Renames(f, r, r2)
    ensures r2 == r
  {
    CasingIsIdempotent();
    var f := if snake then CamelToSnake else CamelKey;
    OutputIsFixed(f, v, r);
    FixedRenamesToItself(f, r, r2);
  }
}
