/**
 Dropping zero-valued entries from a YAML tree before it is written out
 (cmd/aastroctl/openapi.go, pruneZeroNodes), and why that loses nothing.
 */
module YamlPrune {
  import opened Options

  /** A mapping's content alternates keys and values, as the YAML library keeps it. */
  datatype Node =
    | Scalar(tag: string, value: string)
    | Mapping(content: seq<Node>)
    | Sequence(content: seq<Node>)
    | Document(content: seq<Node>)
    | Alias(anchor: string)

  predicate ZeroScalar(tag: string, value: string) {
    tag == "!!null" || value in {"", "0", "false", "0s"}
  }

  predicate IsZero(n: Node) {
    match n
    case Scalar(tag, value) => ZeroScalar(tag, value)
    case Mapping(content) => content == []
    case Sequence(content) => content == []
    case _ => false
  }

  function Prune(n: Node): Node
    decreases n, 1
  {
    match n
    case Document(content) => Document(PruneEach(content))
    case Sequence(content) => Sequence(PruneEach(content))
    case Mapping(content) => Mapping(PruneEntries(content))
    case _ => n
  }

  function PruneEach(content: seq<Node>): (out: seq<Node>)
    ensures |out| == |content|
    decreases content, 0
  {
    if content == [] then [] else [Prune(content[0])] + PruneEach(content[1..])
  }

  function PruneEntries(content: seq<Node>): seq<Node>
    decreases content, 0
  {
    if |content| < 2 then []
    else
      assert content[1] in content;
      var value := Prune(content[1]);
      (if IsZero(value) then [] else [content[0], value]) + PruneEntries(content[2..])
  }

  // ------------------------------------------------------------- Reading

  datatype Step = Key(key: Node) | Index(i: nat)

  /** What a reader finds at the end of a path; a zero and an absence are the same to it. */
  datatype Reading = Zero | Found(tag: string, value: string)

  /** The value of the first entry with this key. */
  function Lookup(content: seq<Node>, key: Node): (found: Option<Node>)
    ensures found.Some? ==> key in content && found.value in content
  {
    if |content| < 2 then None
    else if content[0] == key then Some(content[1])
    else Lookup(content[2..], key)
  }

  /** The scalar at the end of a path, if there is one. */
  function At(n: Node, path: seq<Step>): (found: Option<Node>)
    ensures found.Some? ==> found.value.Scalar?
    decreases |path|
  {
    if path == [] then if n.Scalar? then Some(n) else None
    else
      match (n, path[0])
      case (Mapping(content), Key(key)) =>
        (match Lookup(content, key)
         case Some(v) => At(v, path[1..])
         case None => None)
      case (Sequence(content), Index(i)) => if i < |content| then At(content[i], path[1..]) else None
      case (Document(content), Index(i)) => if i < |content| then At(content[i], path[1..]) else None
      case _ => None
  }

  function Read(n: Node, path: seq<Step>): Reading {
    match At(n, path)
    case Some(Scalar(tag, value)) => if ZeroScalar(tag, value) then Zero else Found(tag, value)
    case _ => Zero
  }

  /** Nothing but zeros can be read anywhere in n. */
  ghost predicate Blank(n: Node)
    decreases n
  {
    match n
    case Scalar(tag, value) => ZeroScalar(tag, value)
    case Alias(_) => true
    case Mapping(content) =>
      forall key | key in content :: Lookup(content, key).Some? ==> Blank(Lookup(content, key).value)
    case _ => forall c | c in n.content :: Blank(c)
  }

  /**
   No entry that pruning drops was hiding something: wherever the first entry for a
   key prunes to zero, a later entry for that key that is left is blank. Entries that
   a reader never reaches do not matter.
   */
  ghost predicate Unmasked(n: Node)
    decreases n
  {
    match n
    case Scalar(_, _) => true
    case Alias(_) => true
    case Mapping(content) =>
      forall key | key in content :: Lookup(content, key).Some? ==>
        var value, left := Lookup(content, key).value, Lookup(PruneEntries(content), key);
        && Unmasked(value)
        && (IsZero(Prune(value)) && left.Some? ==> Blank(left.value))
    case _ => forall c | c in n.content :: Unmasked(c)
  }

  // ------------------------------------------------- Blank nodes read zero

  lemma {:induction false} BlankReadsZero(n: Node, path: seq<Step>)
    requires Blank(n)
    ensures Read(n, path) == Zero
    decreases |path|
  {
    if path != [] {
      match (n, path[0])
      case (Mapping(content), Key(key)) =>
        if Lookup(content, key).Some? {
          BlankReadsZero(Lookup(content, key).value, path[1..]);
        }
      case (Sequence(content), Index(i)) =>
        if i < |content| {
          BlankReadsZero(content[i], path[1..]);
        }
      case (Document(content), Index(i)) =>
        if i < |content| {
          BlankReadsZero(content[i], path[1..]);
        }
      case _ =>
    }
  }

  lemma {:induction false} SomethingToRead(n: Node) returns (path: seq<Step>)
    requires !Blank(n)
    ensures Read(n, path) != Zero
    decreases n
  {
    match n
    case Scalar(_, _) => path := [];
    case Mapping(content) =>
      var key :| key in content && Lookup(content, key).Some? && !Blank(Lookup(content, key).value);
      path := SomethingToRead(Lookup(content, key).value);
      path := Enter(Key(key), path);
    case Sequence(content) =>
      var i :| 0 <= i < |content| && !Blank(content[i]);
      path := SomethingToRead(content[i]);
      path := Enter(Index(i), path);
    case Document(content) =>
      var i :| 0 <= i < |content| && !Blank(content[i]);
      path := SomethingToRead(content[i]);
      path := Enter(Index(i), path);
  }

  lemma Enter(s: Step, path: seq<Step>) returns (longer: seq<Step>)
    ensures longer == [s] + path && longer != [] && longer[0] == s && longer[1..] == path
  {
    longer := [s] + path;
  }

  // ---------------------------------------------------- Reading and pruning

  lemma ZeroReadsZero(n: Node, path: seq<Step>)
    requires IsZero(n)
    ensures Read(n, path) == Zero
  {
  }

  lemma {:induction false} PruneEachAt(content: seq<Node>, i: nat)
    requires i < |content|
    ensures PruneEach(content)[i] == Prune(content[i])
  {
    if i > 0 {
      PruneEachAt(content[1..], i - 1);
    }
  }

  lemma LookupCons(key: Node, value: Node, rest: seq<Node>, wanted: Node)
    ensures Lookup([key, value] + rest, wanted) == if key == wanted then Some(value) else Lookup(rest, wanted)
  {
    assert ([key, value] + rest)[2..] == rest;
  }

  /** A first entry that survives is found with its pruned value; a missing key stays missing. */
  lemma {:induction false} LookupPruned(content: seq<Node>, key: Node)
    ensures match Lookup(content, key)
            case None => Lookup(PruneEntries(content), key).None?
            case Some(v) => !IsZero(Prune(v)) ==> Lookup(PruneEntries(content), key) == Some(Prune(v))
  {
    if |content| >= 2 {
      var rest, value := PruneEntries(content[2..]), Prune(content[1]);
      LookupPruned(content[2..], key);
      LookupCons(content[0], value, rest, key);
      assert [] + rest == rest;
    }
  }

  /** A mapping that prunes to nothing had only entries that prune to zero. */
  lemma {:induction false} AllDropped(content: seq<Node>, key: Node)
    requires PruneEntries(content) == [] && Lookup(content, key).Some?
    ensures IsZero(Prune(Lookup(content, key).value))
  {
    if content[0] != key {
      AllDropped(content[2..], key);
    }
  }

  /** What is pruned to zero had nothing to read in the first place. */
  lemma {:induction false} DroppedReadsZero(n: Node, path: seq<Step>)
    requires IsZero(Prune(n))
    ensures Read(n, path) == Zero
    decreases |path|
  {
    if path != [] && n.Mapping? && path[0].Key? && Lookup(n.content, path[0].key).Some? {
      AllDropped(n.content, path[0].key);
      DroppedReadsZero(Lookup(n.content, path[0].key).value, path[1..]);
    }
  }

  ghost predicate SameReading(n: Node, path: seq<Step>) {
    Read(Prune(n), path) == Read(n, path)
  }

  lemma {:induction false} UnmaskedKeepsReading(n: Node, path: seq<Step>)
    requires Unmasked(n)
    ensures SameReading(n, path)
    decreases |path|, 0
  {
    if path != [] {
      assert path == [path[0]] + path[1..];
      match (n, path[0])
      case (Mapping(content), Key(key)) =>
        LookupPruned(content, key);
        if Lookup(content, key).Some? {
          KeyReading(content, key, path[1..]);
          UnmaskedEntry(Lookup(content, key).value, Lookup(PruneEntries(content), key), path[1..]);
        }
      case (Sequence(content), Index(i)) =>
        if i < |content| {
          IndexReading(content, i, path[1..]);
          UnmaskedKeepsReading(content[i], path[1..]);
        }
      case (Document(content), Index(i)) =>
        if i < |content| {
          IndexReading(content, i, path[1..]);
          UnmaskedKeepsReading(content[i], path[1..]);
        }
      case _ =>
    }
  }

  /** An entry and what pruning leaves for its key. */
  lemma {:induction false} UnmaskedEntry(v: Node, left: Option<Node>, path: seq<Step>)
    requires Unmasked(v)
    requires if IsZero(Prune(v)) then left.None? || Blank(left.value) else left == Some(Prune(v))
    ensures Read(v, path) == if left.Some? then Read(left.value, path) else Zero
    decreases |path|, 1
  {
    if !IsZero(Prune(v)) {
      UnmaskedKeepsReading(v, path);
    } else {
      DroppedReadsZero(v, path);
      if left.Some? {
        BlankReadsZero(left.value, path);
      }
    }
  }

  /** A masked tree has a path that pruning reads differently. */
  lemma {:induction false} MaskedPath(n: Node) returns (path: seq<Step>)
    requires !Unmasked(n)
    ensures !SameReading(n, path)
    decreases n, 1
  {
    match n
    case Mapping(content) =>
      var key :| key in content && Lookup(content, key).Some? &&
                 (var v, left := Lookup(content, key).value, Lookup(PruneEntries(content), key);
                  !Unmasked(v) || (IsZero(Prune(v)) && left.Some? && !Blank(left.value)));
      LookupPruned(content, key);
      path := MaskedEntry(content, Lookup(content, key).value, Lookup(PruneEntries(content), key));
      KeyReading(content, key, path);
      path := Enter(Key(key), path);
    case Sequence(content) =>
      var i :| 0 <= i < |content| && !Unmasked(content[i]);
      path := MaskedPath(content[i]);
      IndexReading(content, i, path);
      path := Enter(Index(i), path);
    case Document(content) =>
      var i :| 0 <= i < |content| && !Unmasked(content[i]);
      path := MaskedPath(content[i]);
      IndexReading(content, i, path);
      path := Enter(Index(i), path);
  }

  /** A masked entry, or one that masks: a path read differently in what is left for its key. */
  lemma {:induction false} MaskedEntry(content: seq<Node>, v: Node, left: Option<Node>) returns (path: seq<Step>)
    requires v in content
    requires !Unmasked(v) || (IsZero(Prune(v)) && left.Some? && !Blank(left.value))
    requires !IsZero(Prune(v)) ==> left == Some(Prune(v))
    ensures Read(v, path) != if left.Some? then Read(left.value, path) else Zero
    decreases content, 0
  {
    if !Unmasked(v) {
      path := MaskedPath(v);
      if IsZero(Prune(v)) {
        DroppedReadsZero(v, path);
        ZeroReadsZero(Prune(v), path);
        assert false;
      }
    } else {
      path := SomethingToRead(left.value);
      DroppedReadsZero(v, path);
    }
  }

  lemma KeyReading(content: seq<Node>, key: Node, path: seq<Step>)
    requires Lookup(content, key).Some?
    ensures var left := Lookup(PruneEntries(content), key);
            && Read(Mapping(content), [Key(key)] + path) == Read(Lookup(content, key).value, path)
            && Read(Prune(Mapping(content)), [Key(key)] + path) ==
               if left.Some? then Read(left.value, path) else Zero
  {
    assert ([Key(key)] + path)[1..] == path;
  }

  lemma IndexReading(content: seq<Node>, i: nat, path: seq<Step>)
    requires i < |content|
    ensures SameReading(Sequence(content), [Index(i)] + path) <==> SameReading(content[i], path)
    ensures SameReading(Document(content), [Index(i)] + path) <==> SameReading(content[i], path)
  {
    assert ([Index(i)] + path)[1..] == path;
    PruneEachAt(content, i);
  }

  /** Pruning preserves every reading exactly when it drops no entry that masks a readable one. */
  lemma PrunePreservesReadingExactly(n: Node)
    ensures (forall path :: SameReading(n, path)) <==> Unmasked(n)
  {
    if Unmasked(n) {
      forall path ensures SameReading(n, path) {
        UnmaskedKeepsReading(n, path);
      }
    } else {
      var path := MaskedPath(n);
    }
  }

  /** A masked tree: the dropped zero had shadowed a value, which now comes to light. */
  lemma ShadowedValueAppears()
    ensures var k := Scalar("!!str", "k");
            var n := Mapping([k, Scalar("!!int", "0"), k, Scalar("!!int", "1")]);
            !Unmasked(n) && !SameReading(n, [Key(k)])
  {
    var k, zero, one := Scalar("!!str", "k"), Scalar("!!int", "0"), Scalar("!!int", "1");
    var content := [k, zero, k, one];
    assert content[2..] == [k, one] && [k, one][2..] == [];
    assert PruneEntries([k, one]) == [k, one];
    assert PruneEntries(content) == [k, one];
    assert Prune(Mapping(content)) == Mapping([k, one]);
    assert [Key(k)][1..] == [];
    assert At(Mapping([k, one]), [Key(k)]) == At(one, []);
    assert At(Mapping(content), [Key(k)]) == At(zero, []);
    PrunePreservesReadingExactly(Mapping(content));
  }

  // ----------------------------------------------- Trees with unique keys

  /** No key occurs twice in a mapping, at any depth. */
  ghost predicate Tidy(n: Node)
    decreases n, 1
  {
    match n
    case Scalar(_, _) => true
    case Alias(_) => true
    case Mapping(content) => TidyEntries(content)
    case _ => forall c | c in n.content :: Tidy(c)
  }

  ghost predicate TidyEntries(content: seq<Node>)
    decreases content, 0
  {
    |content| >= 2 ==>
      && content[1] in content && Tidy(content[1])
      && Lookup(content[2..], content[0]).None?
      && TidyEntries(content[2..])
  }

  lemma {:induction false} LookupTidy(content: seq<Node>, key: Node)
    requires TidyEntries(content) && Lookup(content, key).Some?
    ensures Tidy(Lookup(content, key).value)
    ensures IsZero(Prune(Lookup(content, key).value)) ==> Lookup(PruneEntries(content), key).None?
  {
    var rest, value := content[2..], Prune(content[1]);
    LookupPruned(rest, key);
    if content[0] != key {
      LookupTidy(rest, key);
      assert ([content[0], value] + PruneEntries(rest))[2..] == PruneEntries(rest);
    }
    assert [] + PruneEntries(rest) == PruneEntries(rest);
  }

  lemma {:induction false} TidyIsUnmasked(n: Node)
    requires Tidy(n)
    ensures Unmasked(n)
    decreases n
  {
    match n
    case Mapping(content) =>
      forall key | key in content && Lookup(content, key).Some?
        ensures Unmasked(Lookup(content, key).value)
        ensures IsZero(Prune(Lookup(content, key).value)) ==> Lookup(PruneEntries(content), key).None?
      {
        LookupTidy(content, key);
        TidyIsUnmasked(Lookup(content, key).value);
      }
    case Scalar(_, _) =>
    case Alias(_) =>
    case _ =>
      forall c | c in n.content ensures Unmasked(c) {
        TidyIsUnmasked(c);
      }
  }

  /** Without duplicate keys, every path reads the same before and after. */
  lemma PrunePreservesReading(n: Node, path: seq<Step>)
    requires Tidy(n)
    ensures Read(Prune(n), path) == Read(n, path)
  {
    TidyIsUnmasked(n);
    UnmaskedKeepsReading(n, path);
  }

  // ----------------------------------------------- What pruning leaves

  /** No mapping holds a zero value, and none has a dangling key, at any depth below n. */
  ghost predicate Clean(n: Node)
    decreases n, 1
  {
    match n
    case Mapping(content) => CleanEntries(content)
    case Sequence(content) => forall c | c in content :: Clean(c)
    case Document(content) => forall c | c in content :: Clean(c)
    case _ => true
  }

  ghost predicate CleanEntries(content: seq<Node>)
    decreases content, 0
  {
    if |content| < 2 then content == []
    else content[1] in content && !IsZero(content[1]) && Clean(content[1]) && CleanEntries(content[2..])
  }

  lemma {:induction false} PruneCleans(n: Node)
    ensures Clean(Prune(n))
    decreases n, 1
  {
    match n
    case Mapping(content) => PruneEntriesCleans(content);
    case Scalar(_, _) =>
    case Alias(_) =>
    case _ =>
      forall c | c in PruneEach(n.content) ensures Clean(c) {
        var i :| 0 <= i < |n.content| && PruneEach(n.content)[i] == c;
        PruneEachAt(n.content, i);
        PruneCleans(n.content[i]);
      }
  }

  lemma {:induction false} PruneEntriesCleans(content: seq<Node>)
    ensures CleanEntries(PruneEntries(content))
    decreases content, 0
  {
    if |content| >= 2 {
      PruneCleans(content[1]);
      PruneEntriesCleans(content[2..]);
      var value, rest := Prune(content[1]), PruneEntries(content[2..]);
      if !IsZero(value) {
        var out := [content[0], value] + rest;
        assert out[1] == value && out[1] in out && out[2..] == rest;
      } else {
        assert [] + rest == rest;
      }
    }
  }

  /** The trees pruning leaves alone are exactly the clean ones. */
  lemma {:induction false} CleanIsFixed(n: Node)
    ensures Clean(n) ==> Prune(n) == n
    decreases n, 1
  {
    match n
    case Mapping(content) => CleanEntriesFixed(content);
    case Scalar(_, _) =>
    case Alias(_) =>
    case _ =>
      if Clean(n) {
        forall i | 0 <= i < |n.content| ensures PruneEach(n.content)[i] == n.content[i] {
          PruneEachAt(n.content, i);
          CleanIsFixed(n.content[i]);
        }
        assert PruneEach(n.content) == n.content;
      }
  }

  lemma {:induction false} CleanEntriesFixed(content: seq<Node>)
    ensures CleanEntries(content) ==> PruneEntries(content) == content
    decreases content, 0
  {
    if |content| >= 2 {
      CleanIsFixed(content[1]);
      CleanEntriesFixed(content[2..]);
      assert [content[0], content[1]] + content[2..] == content;
    }
  }

  /** A tree is left alone exactly when it is clean, so a second pass changes nothing. */
  lemma PruneFixpoints(n: Node)
    ensures Prune(n) == n <==> Clean(n)
    ensures Prune(Prune(n)) == Prune(n)
  {
    PruneCleans(n);
    CleanIsFixed(n);
    CleanIsFixed(Prune(n));
  }
}
