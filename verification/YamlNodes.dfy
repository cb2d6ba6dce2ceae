/**
 pruneZeroNodes as it runs: it rewrites the content of linked nodes in place while
 it recurses. The tree a node spans before and after is related by Prune.
 */
module YamlNodes {
  import opened YamlPrune

  datatype Kind = DocumentKind | MappingKind | SequenceKind | ScalarKind | AliasKind

  class YamlNode {
    const kind: Kind
    const tag: string
    const value: string
    var content: seq<YamlNode>
    ghost var repr: set<YamlNode>

    constructor (kind: Kind, tag: string, value: string, content: seq<YamlNode>)
      requires forall c | c in content :: c.Valid()
      requires forall i, j | 0 <= i < j < |content| :: content[i].repr !! content[j].repr
      ensures Valid() && this.content == content
      ensures this.kind == kind && this.tag == tag && this.value == value
    {
      this.kind := kind;
      this.tag := tag;
      this.value := value;
      this.content := content;
      this.repr := {this} + set c, o | c in content && o in c.repr :: o;
    }

    /** The nodes below this one form a tree. */
    ghost predicate Valid()
      reads this, repr
      decreases repr
    {
      && this in repr
      && (forall c | c in content :: c in repr && c.repr <= repr && this !in c.repr && c.Valid())
      && (forall i, j | 0 <= i < j < |content| :: content[i].repr !! content[j].repr)
    }

    /** The value of the tree this node spans. */
    ghost function Tree(): Node
      requires Valid()
      reads this, repr
      decreases repr, |content| + 1
    {
      match kind
      case ScalarKind => Scalar(tag, value)
      case AliasKind => Alias(value)
      case DocumentKind => Document(Trees(|content|))
      case SequenceKind => Sequence(Trees(|content|))
      case MappingKind => Mapping(Trees(|content|))
    }

    ghost function Trees(n: nat): (ts: seq<Node>)
      requires Valid() && n <= |content|
      reads this, repr
      ensures |ts| == n && forall i | 0 <= i < n :: ts[i] == content[i].Tree()
      decreases repr, n
    {
      if n == 0 then [] else
      assert content[n - 1] in content;
      Trees(n - 1) + [content[n - 1].Tree()]
    }

    method IsZeroNode() returns (zero: bool)
      requires Valid()
      ensures zero == IsZero(Tree())
    {
      match kind {
        case ScalarKind => zero := ZeroScalar(tag, value);
        case MappingKind => zero := |content| == 0;
        case SequenceKind => zero := |content| == 0;
        case DocumentKind => zero := false;
        case AliasKind => zero := false;
      }
    }

    method PruneZeroNodes()
      requires Valid()
      modifies repr
      ensures Valid() && repr == old(repr)
      ensures Tree() == Prune(old(Tree()))
      decreases repr, 5
    {
      match kind {
        case ScalarKind =>
        case AliasKind =>
        case DocumentKind => PruneChildren();
        case SequenceKind => PruneChildren();
        case MappingKind => PruneMapping();
      }
    }

    /** The children span these trees. */
    ghost predicate Spans(ts: seq<Node>)
      requires Valid()
      reads this, repr
    {
      |ts| == |content| && forall i | 0 <= i < |content| :: content[i].Tree() == ts[i]
    }

    /** Prunes one child; what happens inside it does not reach its siblings. */
    method PruneApart(i: nat, ghost ts: seq<Node>)
      requires Valid() && i < |content| && Spans(ts)
      modifies content[i].repr
      ensures unchanged(this)
      ensures forall j | 0 <= j < |content| ::
                content[j].repr == old(content[j].repr) && content[j].Valid() &&
                content[j].Tree() == if j == i then Prune(ts[i]) else ts[j]
      decreases repr, 0
    {
      var kids, child := content, content[i];
      assert child in kids;
      assert forall j | 0 <= j < |kids| && j != i :: kids[j] in kids && kids[j].repr !! child.repr;
      child.PruneZeroNodes();
      forall j | 0 <= j < |kids| && j != i
        ensures kids[j].repr == old(kids[j].repr) && kids[j].Valid() && kids[j].Tree() == ts[j]
      {
        var sibling := kids[j];
        assert unchanged(sibling.repr) && old(sibling.Valid()) && old(sibling.Tree()) == ts[j];
      }
    }

    /** Pruning one child leaves its siblings, and this node, as they were. */
    method PruneChild(i: nat, ghost ts: seq<Node>)
      requires Valid() && i < |content| && Spans(ts)
      modifies content[i].repr
      ensures unchanged(this) && Valid()
      ensures Spans(ts[i := Prune(ts[i])])
      decreases repr, 1
    {
      assert forall j | 0 <= j < |content| :: content[j] in content;
      assert forall j | 0 <= j < |content| :: this !in content[j].repr && content[j].repr <= repr;
      PruneApart(i, ts);
      assert forall j | 0 <= j < |content| :: this !in content[j].repr && content[j].repr <= repr;
    }

    method PruneChildren()
      requires Valid()
      modifies repr
      ensures Valid() && unchanged(this)
      ensures Trees(|content|) == PruneEach(old(Trees(|content|)))
      decreases repr, 2
    {
      ghost var was := Trees(|content|);
      ghost var now := was;
      for i := 0 to |content|
        invariant unchanged(this) && Valid() && Spans(now)
        invariant forall j | 0 <= j < |content| :: now[j] == if j < i then Prune(was[j]) else was[j]
      {
        assert content[i] in content;
        PruneChild(i, now);
        now := now[i := Prune(now[i])];
      }
      forall j | 0 <= j < |content| ensures now[j] == PruneEach(was)[j] {
        PruneEachAt(was, j);
      }
      assert Trees(|content|) == now == PruneEach(was);
    }

    method PruneMapping()
      requires Valid()
      modifies repr
      ensures Valid() && repr == old(repr)
      ensures Trees(|content|) == PruneEntries(old(Trees(|content|)))
      decreases repr, 4
    {
      ghost var was := Trees(|content|);
      ghost var now := was;
      var kept: seq<YamlNode> := [];
      ghost var from: seq<nat> := [];  // where in content each kept node stands
      var i := 0;
      assert was[..0] == [];
      while i + 1 < |content|
        invariant 0 <= i <= |content| && i % 2 == 0
        invariant unchanged(this) && Valid() && Spans(now)
        invariant Selected(content, kept, from, i)
        invariant Progress(was, now, from, i)
        decreases |content| - i
      {
        kept, from, now := PruneEntry(i, kept, from, was, now);
        i := i + 2;
      }
      PruneEntriesEnd(was, i);
      Keep(kept, from, now, PruneEntries(was));
      SpansTrees(PruneEntries(was));
    }

    /** One turn of the loop over a mapping's entries: prune the value, keep the entry unless it is zero. */
    method PruneEntry(i: nat, kept: seq<YamlNode>, ghost from: seq<nat>, ghost was: seq<Node>, ghost now: seq<Node>)
      returns (kept': seq<YamlNode>, ghost from': seq<nat>, ghost now': seq<Node>)
      requires Valid() && i % 2 == 0 && i + 1 < |content| && Spans(now)
      requires Selected(content, kept, from, i) && Progress(was, now, from, i)
      modifies content[i + 1].repr
      ensures unchanged(this) && Valid() && Spans(now')
      ensures Selected(content, kept', from', i + 2) && Progress(was, now', from', i + 2)
      decreases repr, 3
    {
      ProgressStep(was, now, from, i);
      SelectedStep(content, kept, from, i);
      var zero := PruneValue(i + 1, now);
      now' := now[i + 1 := Prune(now[i + 1])];
      if zero {
        kept', from' := kept, from;
      } else {
        kept', from' := kept + [content[i], content[i + 1]], from + [i, i + 1];
      }
    }

    method PruneValue(i: nat, ghost now: seq<Node>) returns (zero: bool)
      requires Valid() && i < |content| && Spans(now)
      modifies content[i].repr
      ensures unchanged(this) && Valid() && Spans(now[i := Prune(now[i])])
      ensures zero == IsZero(Prune(now[i]))
      decreases repr, 2
    {
      assert content[i] in content;
      PruneChild(i, now);
      assert content[i].Tree() == Prune(now[i]);
      zero := content[i].IsZeroNode();
    }

    lemma SpansTrees(ts: seq<Node>)
      requires Valid() && Spans(ts)
      ensures Trees(|content|) == ts
    {
    }

    /** Replaces the content by some of its own nodes. */
    method Keep(kept: seq<YamlNode>, ghost from: seq<nat>, ghost now: seq<Node>, ghost want: seq<Node>)
      requires Valid() && Spans(now) && Selected(content, kept, from, |content|)
      requires |want| == |from| && forall k | 0 <= k < |from| :: now[from[k]] == want[k]
      modifies this
      ensures Valid() && repr == old(repr) && Spans(want)
    {
      assert forall k | 0 <= k < |kept| :: kept[k] == content[from[k]] && kept[k] in content;
      assert forall k | 0 <= k < |kept| :: kept[k].Tree() == want[k];
      content := kept;
      assert forall k | 0 <= k < |kept| :: kept[k].Valid() && kept[k].Tree() == want[k];
    }
  }

  /** kept picks nodes of content before i, left to right. */
  ghost predicate Selected(content: seq<YamlNode>, kept: seq<YamlNode>, from: seq<nat>, i: int) {
    && |from| == |kept|
    && (forall k | 0 <= k < |from| :: from[k] < |content| && from[k] < i && kept[k] == content[from[k]])
    && (forall k, l | 0 <= k < l < |from| :: from[k] < from[l])
  }

  lemma SelectedStep(content: seq<YamlNode>, kept: seq<YamlNode>, from: seq<nat>, i: nat)
    requires i + 1 < |content| && Selected(content, kept, from, i)
    ensures Selected(content, kept, from, i + 2)
    ensures Selected(content, kept + [content[i], content[i + 1]], from + [i, i + 1], i + 2)
  {
  }

  /** The chosen positions of `now` hold what pruning makes of the first i nodes of `was`. */
  ghost predicate Progress(was: seq<Node>, now: seq<Node>, from: seq<nat>, i: nat) {
    && i <= |was| == |now| && |from| == |PruneEntries(was[..i])|
    && (forall j | i <= j < |now| :: now[j] == was[j])
    && (forall k | 0 <= k < |from| :: from[k] < i && now[from[k]] == PruneEntries(was[..i])[k])
  }

  lemma ProgressStep(was: seq<Node>, now: seq<Node>, from: seq<nat>, i: nat)
    requires i % 2 == 0 && i + 1 < |was| && Progress(was, now, from, i)
    ensures var v := Prune(was[i + 1]);
            now[i + 1] == was[i + 1] &&
            Progress(was, now[i + 1 := v], if IsZero(v) then from else from + [i, i + 1], i + 2)
  {
    PruneEntriesSnoc(was, i);
    var v, out := Prune(was[i + 1]), PruneEntries(was[..i]);
    var now' := now[i + 1 := v];
    assert forall k | 0 <= k < |from| :: now'[from[k]] == out[k];
    assert now'[i] == was[i] && now'[i + 1] == v;
    if !IsZero(v) {
      var out', from' := out + [was[i], v], from + [i, i + 1];
      assert PruneEntries(was[..i + 2]) == out';
      assert forall k | 0 <= k < |from'| :: from'[k] < i + 2 && now'[from'[k]] == out'[k];
    }
  }

  lemma {:induction false} PruneEntriesSnoc(content: seq<Node>, i: nat)
    requires i % 2 == 0 && i + 1 < |content|
    ensures PruneEntries(content[..i + 2]) ==
            PruneEntries(content[..i]) +
            if IsZero(Prune(content[i + 1])) then [] else [content[i], Prune(content[i + 1])]
    decreases i
  {
    if i == 0 {
      assert content[..2][2..] == [] && content[..0] == [];
    } else {
      PruneEntriesSnoc(content[2..], i - 2);
      assert content[..i + 2][2..] == content[2..][..i] && content[..i][2..] == content[2..][..i - 2];
    }
  }

  lemma {:induction false} PruneEntriesEnd(content: seq<Node>, i: nat)
    requires i % 2 == 0 && i <= |content| <= i + 1
    ensures PruneEntries(content[..i]) == PruneEntries(content)
    decreases i
  {
    if i > 0 {
      PruneEntriesEnd(content[2..], i - 2);
      assert content[..i][2..] == content[2..][..i - 2];
    }
  }
}
