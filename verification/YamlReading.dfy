/**
 What pruning does to a reader who knows which type it expects at each path: the
 configuration loader, which takes an absent field for the zero of its type
 (cmd/aastroctl/openapi.go, pruneZeroNodes).
 */
module YamlReading {
  import opened Options
  import opened YamlPrune

  // ------------------------------------------------------ Typed readings

  datatype Expected = Boolean | Integer | Duration | Text

  datatype Value = Bool(b: bool) | Int(i: int) | Nanoseconds(d: int) | Str(s: string) | Unreadable(text: string)

  /** How numbers and durations are parsed. */
  datatype Reader = Reader(integer: string -> Option<int>, duration: string -> Option<int>)

  /** What the parsers make of the spellings that matter; anything goes for all others. */
  ghost predicate Standard(r: Reader) {
    && r.integer("0") == Some(0)
    && (forall s | s in {"", "false", "0s"} :: r.integer(s).None?)
    && r.duration("0s") == Some(0) && r.duration("0") in {None, Some(0)}
    && (forall s | s in {"", "false"} :: r.duration(s).None?)
  }

  /** What an absent field is. */
  function Absent(t: Expected): Value {
    match t
    case Boolean => Bool(false)
    case Integer => Int(0)
    case Duration => Nanoseconds(0)
    case Text => Str("")
  }

  /** How the zero of a type is written. */
  function Spelling(t: Expected): string {
    match t
    case Boolean => "false"
    case Integer => "0"
    case Duration => "0s"
    case Text => ""
  }

  function Decode(r: Reader, t: Expected, tag: string, value: string): Value {
    if tag == "!!null" then Absent(t)
    else
      match t
      case Boolean =>
        if value in {"true", "True", "TRUE"} then Bool(true)
        else if value in {"false", "False", "FALSE"} then Bool(false)
        else Unreadable(value)
      case Integer => (match r.integer(value) case Some(i) => Int(i) case None => Unreadable(value))
      case Duration => (match r.duration(value) case Some(d) => Nanoseconds(d) case None => Unreadable(value))
      case Text => Str(value)
  }

  function DecodeFound(r: Reader, t: Expected, found: Option<Node>): Value {
    match found
    case Some(Scalar(tag, value)) => Decode(r, t, tag, value)
    case _ => Absent(t)
  }

  function ReadAs(r: Reader, t: Expected, n: Node, path: seq<Step>): Value {
    DecodeFound(r, t, At(n, path))
  }

  // ------------------------------------------------ Which scalars are zero

  ghost predicate SpellsZero(value: string) {
    exists t :: value == Spelling(t)
  }

  /** A scalar is dropped exactly when it is null or spells the zero of some type. */
  lemma ZeroSpellings(tag: string, value: string)
    ensures IsZero(Scalar(tag, value)) <==> tag == "!!null" || SpellsZero(value)
  {
    assert Spelling(Boolean) == "false" && Spelling(Integer) == "0";
    assert Spelling(Duration) == "0s" && Spelling(Text) == "";
  }

  lemma SpellingIsRead(r: Reader, t: Expected, tag: string)
    requires Standard(r)
    ensures Decode(r, t, tag, Spelling(t)) == Absent(t)
  {
  }

  predicate EndsInKey(path: seq<Step>) {
    path != [] && path[|path| - 1].Key?
  }

  /** No entry that spells a zero is left, at any depth. */
  lemma {:induction false} EntriesLeft(n: Node, path: seq<Step>)
    requires Clean(n) && EndsInKey(path) && At(n, path).Some?
    ensures var s := At(n, path).value; s.tag != "!!null" && !SpellsZero(s.value)
    decreases |path|
  {
    match (n, path[0])
    case (Mapping(content), Key(key)) =>
      CleanLookup(content, key);
      var v := Lookup(content, key).value;
      if |path| == 1 {
        ZeroSpellings(v.tag, v.value);
      } else {
        EntriesLeft(v, path[1..]);
      }
    case (Sequence(content), Index(i)) => EntriesLeft(content[i], path[1..]);
    case (Document(content), Index(i)) => EntriesLeft(content[i], path[1..]);
  }

  lemma {:induction false} CleanLookup(content: seq<Node>, key: Node)
    requires CleanEntries(content) && Lookup(content, key).Some?
    ensures Clean(Lookup(content, key).value) && !IsZero(Lookup(content, key).value)
  {
    if content[0] != key {
      CleanLookup(content[2..], key);
    }
  }

  /** Pruning leaves no mapping entry, at any depth, that is null or spells a type's zero. */
  lemma PruneDropsSpellings(n: Node, path: seq<Step>)
    requires EndsInKey(path) && At(Prune(n), path).Some?
    ensures var s := At(Prune(n), path).value; s.tag != "!!null" && !SpellsZero(s.value)
  {
    PruneCleans(n);
    EntriesLeft(Prune(n), path);
  }

  // ---------------------------------------------- Paths that are dropped

  /** On its way the path takes an entry that pruning drops. */
  ghost predicate Drops(n: Node, path: seq<Step>)
    decreases |path|
  {
    path != [] &&
    match (n, path[0])
    case (Mapping(content), Key(key)) =>
      var found := Lookup(content, key);
      found.Some? && (IsZero(Prune(found.value)) || Drops(found.value, path[1..]))
    case (Sequence(content), Index(i)) => i < |content| && Drops(content[i], path[1..])
    case (Document(content), Index(i)) => i < |content| && Drops(content[i], path[1..])
    case _ => false
  }

  /** The scalar the dropped entry was hiding: the one a later entry with its key has at the path. */
  ghost function Revealed(n: Node, path: seq<Step>): Option<Node>
    requires Drops(n, path)
    decreases |path|
  {
    match (n, path[0])
    case (Mapping(content), Key(key)) =>
      var v := Lookup(content, key).value;
      if !IsZero(Prune(v)) then Revealed(v, path[1..])
      else
        (match Lookup(PruneEntries(content), key)
         case Some(left) => At(left, path[1..])
         case None => None)
    case (Sequence(content), Index(i)) => Revealed(content[i], path[1..])
    case (Document(content), Index(i)) => Revealed(content[i], path[1..])
  }

  /** Where a path leads after pruning. */
  lemma {:induction false} PrunedAt(n: Node, path: seq<Step>)
    ensures At(Prune(n), path) == if Drops(n, path) then Revealed(n, path) else At(n, path)
    decreases |path|
  {
    if path != [] {
      match (n, path[0])
      case (Mapping(content), Key(key)) =>
        LookupPruned(content, key);
        if Lookup(content, key).Some? {
          PrunedAt(Lookup(content, key).value, path[1..]);
        }
      case (Sequence(content), Index(i)) =>
        if i < |content| {
          PruneEachAt(content, i);
          PrunedAt(content[i], path[1..]);
        }
      case (Document(content), Index(i)) =>
        if i < |content| {
          PruneEachAt(content, i);
          PrunedAt(content[i], path[1..]);
        }
      case _ =>
    }
  }

  /** What can be found in a node that prunes to zero is itself zero, and stands under keys alone. */
  lemma {:induction false} FoundInZero(v: Node, path: seq<Step>)
    requires IsZero(Prune(v)) && At(v, path).Some?
    ensures IsZero(At(v, path).value) && forall s | s in path :: s.Key?
    decreases |path|
  {
    if path != [] {
      AllDropped(v.content, path[0].key);
      FoundInZero(Lookup(v.content, path[0].key).value, path[1..]);
      assert path == [path[0]] + path[1..];
    }
  }

  /** What can be found under keys alone in a clean node that is not zero, is not zero. */
  lemma {:induction false} FoundInClean(left: Node, path: seq<Step>)
    requires Clean(left) && !IsZero(left) && At(left, path).Some? && forall s | s in path :: s.Key?
    ensures !IsZero(At(left, path).value)
    decreases |path|
  {
    if path != [] {
      assert path[0] in path;
      CleanLookup(left.content, path[0].key);
      FoundInClean(Lookup(left.content, path[0].key).value, path[1..]);
    }
  }

  /** A scalar that is dropped is zero, an entry of a mapping, and never what comes to light instead. */
  lemma {:induction false} DroppedScalar(n: Node, path: seq<Step>)
    requires Drops(n, path) && At(n, path).Some?
    ensures IsZero(At(n, path).value) && EndsInKey(path)
    ensures Revealed(n, path).Some? ==> !IsZero(Revealed(n, path).value)
    decreases |path|
  {
    match (n, path[0])
    case (Mapping(content), Key(key)) =>
      var v, rest := Lookup(content, key).value, path[1..];
      if IsZero(Prune(v)) {
        FoundInZero(v, rest);
        assert forall s | s in path :: s == path[0] || s in rest;
        assert path[|path| - 1] in path;
        if Lookup(PruneEntries(content), key).Some? && Revealed(n, path).Some? {
          PruneEntriesCleans(content);
          CleanLookup(PruneEntries(content), key);
          FoundInClean(Lookup(PruneEntries(content), key).value, rest);
        }
      } else {
        DroppedScalar(v, rest);
      }
    case (Sequence(content), Index(i)) => DroppedScalar(content[i], path[1..]);
    case (Document(content), Index(i)) => DroppedScalar(content[i], path[1..]);
  }

  // ------------------------------------------------ One reading, exactly

  /** What is found reads like nothing at all. */
  predicate ReadsAbsent(r: Reader, t: Expected, found: Option<Node>) {
    DecodeFound(r, t, found) == Absent(t)
  }

  /** A zero and a non-zero scalar are read alike only if both read like nothing. */
  lemma ReadApart(r: Reader, t: Expected, zero: Node, other: Node)
    requires Standard(r) && zero.Scalar? && other.Scalar? && IsZero(zero) && !IsZero(other)
    ensures DecodeFound(r, t, Some(zero)) == DecodeFound(r, t, Some(other)) ==> ReadsAbsent(r, t, Some(zero))
  {
  }

  ghost predicate SameReadAs(r: Reader, t: Expected, n: Node, path: seq<Step>) {
    ReadAs(r, t, Prune(n), path) == ReadAs(r, t, n, path)
  }

  /**
   For every tree, path and expected type: the reading survives exactly when the path
   takes no dropped entry, or what stood at its end and what comes to light there
   both read like nothing.
   */
  lemma TypedReadingExactly(r: Reader, t: Expected, n: Node, path: seq<Step>)
    requires Standard(r)
    ensures SameReadAs(r, t, n, path) <==>
            (Drops(n, path) ==> ReadsAbsent(r, t, At(n, path)) && ReadsAbsent(r, t, Revealed(n, path)))
  {
    PrunedAt(n, path);
    if Drops(n, path) && At(n, path).Some? && Revealed(n, path).Some? {
      DroppedScalar(n, path);
      ReadApart(r, t, At(n, path).value, Revealed(n, path).value);
    }
  }

  // ------------------------------------- A whole configuration, exactly

  /** The type the loader expects at each path. */
  type Schema = seq<Step> -> Expected

  /** Every scalar can be read as what it is expected to be. */
  ghost predicate WellTyped(r: Reader, schema: Schema, n: Node) {
    forall path :: !ReadAs(r, schema(path), n, path).Unreadable?
  }

  /** An entry that is meant as text and spells another type's zero. */
  ghost predicate ZeroText(schema: Schema, n: Node, path: seq<Step>) {
    && EndsInKey(path) && schema(path).Text? && At(n, path).Some?
    && At(n, path).value.tag != "!!null" && At(n, path).value.value in {"0", "false", "0s"}
  }

  lemma {:induction false} ZeroEntryDropped(n: Node, path: seq<Step>)
    requires EndsInKey(path) && At(n, path).Some? && IsZero(At(n, path).value)
    ensures Drops(n, path)
    decreases |path|
  {
    match (n, path[0])
    case (Mapping(content), Key(key)) =>
      if |path| > 1 {
        ZeroEntryDropped(Lookup(content, key).value, path[1..]);
      }
    case (Sequence(content), Index(i)) => ZeroEntryDropped(content[i], path[1..]);
    case (Document(content), Index(i)) => ZeroEntryDropped(content[i], path[1..]);
  }

  lemma {:induction false} TidyRevealsNothing(n: Node, path: seq<Step>)
    requires Tidy(n) && Drops(n, path)
    ensures Revealed(n, path).None?
    decreases |path|
  {
    match (n, path[0])
    case (Mapping(content), Key(key)) =>
      LookupTidy(content, key);
      if !IsZero(Prune(Lookup(content, key).value)) {
        TidyRevealsNothing(Lookup(content, key).value, path[1..]);
      }
    case (Sequence(content), Index(i)) => TidyRevealsNothing(content[i], path[1..]);
    case (Document(content), Index(i)) => TidyRevealsNothing(content[i], path[1..]);
  }

  lemma ReadableZero(r: Reader, t: Expected, tag: string, value: string)
    requires Standard(r) && IsZero(Scalar(tag, value)) && !Decode(r, t, tag, value).Unreadable?
    requires t.Text? && tag != "!!null" ==> value !in {"0", "false", "0s"}
    ensures Decode(r, t, tag, value) == Absent(t)
  {
  }

  /**
   A configuration without duplicate keys, written in the types it is read back in:
   pruning preserves every reading exactly when no entry that is meant as text spells
   the zero of another type.
   */
  lemma ConfigurationKeptExactly(r: Reader, schema: Schema, n: Node)
    requires Standard(r) && Tidy(n) && WellTyped(r, schema, n)
    ensures (forall path :: SameReadAs(r, schema(path), n, path)) <==> !exists path :: ZeroText(schema, n, path)
  {
    if path :| ZeroText(schema, n, path) {
      ZeroEntryDropped(n, path);
      TypedReadingExactly(r, Text, n, path);
      assert !SameReadAs(r, schema(path), n, path);
    } else {
      forall path ensures SameReadAs(r, schema(path), n, path) {
        TypedReadingExactly(r, schema(path), n, path);
        if Drops(n, path) {
          TidyRevealsNothing(n, path);
          if At(n, path).Some? {
            DroppedScalar(n, path);
            assert !ZeroText(schema, n, path) && !ReadAs(r, schema(path), n, path).Unreadable?;
            ReadableZero(r, schema(path), At(n, path).value.tag, At(n, path).value.value);
          }
        }
      }
    }
  }

  /** Text that says "false" is lost, under every reader. */
  lemma TextIsLost(r: Reader)
    ensures var k := Scalar("!!str", "name");
            var n := Mapping([k, Scalar("!!str", "false")]);
            && ReadAs(r, Text, n, [Key(k)]) == Str("false")
            && ReadAs(r, Text, Prune(n), [Key(k)]) == Str("")
  {
    var k, v := Scalar("!!str", "name"), Scalar("!!str", "false");
    assert [Key(k)][1..] == [] && [k, v][2..] == [];
    assert PruneEntries([k, v]) == [];
    assert At(Mapping([k, v]), [Key(k)]) == At(v, []);
  }
}
