/** The hash chains of the route cache: links inside a fixed array of entries. */
module RouteChains {
  import opened Address
  import opened Bytes
  import opened Sorting
  import opened RouteState

  /** NULL as an entry index. */
  const NULL := -1

  /** One array element: the entry, its hash and its chain link. */
  datatype Node = Node(info: Entry, hash: nat, next: int)

  // ----- the hash, over any octet mixing step

  type Mix = (nat, byte) -> nat

  function MixAll(mix: Mix, h: nat, s: bytes): nat {
    if s == [] then h else mix(MixAll(mix, h, s[..|s| - 1]), s[|s| - 1])
  }

  const BASIS := 2166136261

  function Head(kind: byte, port: nat): bytes { [kind, (port / 256) % 256, port % 256] }

  function KeyHash(mix: Mix, k: Key): nat {
    MixAll(mix, MixAll(mix, BASIS, Head(k.kind, k.port)), k.host)
  }

  /** Hashing a target as sent equals hashing its folded key. */
  method HashTarget(mix: Mix, t: Target) returns (h: nat)
    ensures h == KeyHash(mix, KeyOf(t))
  {
    var head := Head(t.kind, t.port);
    h := mix(mix(mix(BASIS, head[0]), head[1]), head[2]);
    HeadHash(mix, head);
    ghost var h0, host := h, KeyOf(t).host;
    for i := 0 to |t.host|
      invariant h == MixAll(mix, h0, host[..i])
    {
      var c := t.host[i];
      if t.kind == DOMAIN {
        c := ToLower(c);
      }
      assert host[..i + 1][..i] == host[..i];
      h := mix(h, c);
    }
    assert host[..|host|] == host;
  }

  lemma HeadHash(mix: Mix, s: bytes)
    requires |s| == 3
    ensures MixAll(mix, BASIS, s) == mix(mix(mix(BASIS, s[0]), s[1]), s[2])
  {
    assert s[..2][..1] == s[..1];
    assert s[..1][..0] == [];
    assert MixAll(mix, BASIS, s[..1]) == mix(BASIS, s[0]);
    assert MixAll(mix, BASIS, s[..2]) == mix(mix(BASIS, s[0]), s[1]);
  }

  /** The bucket of a hash: its low bits, the number of buckets being a power of two. */
  function LowBits(hash: nat, bucketsN: nat): (b: nat)
    requires bucketsN > 0
    ensures b < bucketsN
  {
    BitAnd(hash, bucketsN - 1)
  }

  /** A power of two of buckets takes the remainder. */
  lemma LowBitsIsRemainder(hash: nat, k: nat)
    ensures LowBits(hash, Pow2(k)) == hash % Pow2(k)
  {
    MaskIsRemainder(hash, k);
  }

  /** Hash to bucket. */
  type Spread = nat -> nat

  ghost predicate SpreadOver(bk: Spread, bucketsN: nat) {
    forall h: nat :: bk(h) < bucketsN
  }

  /** The field-by-field comparison of the chain walk. */
  predicate SameKey(k: Key, t: Target) {
    && k.kind == t.kind && |k.host| == |t.host| && k.port == t.port
    && if t.kind == DOMAIN then forall i :: 0 <= i < |t.host| ==> ToLower(t.host[i]) == k.host[i] else k.host == t.host
  }

  lemma SameKeyIsKey(k: Key, t: Target)
    ensures SameKey(k, t) <==> k == KeyOf(t)
  {
    if SameKey(k, t) && t.kind == DOMAIN { assert k.host == Fold(t.host); }
  }

  // ----- chains

  function At(c: seq<nat>, k: nat): int { if k < |c| then c[k] else NULL }

  ghost predicate ChainFrom(nodes: seq<Node>, head: int, c: seq<nat>) {
    && head == At(c, 0)
    && (forall k :: 0 <= k < |c| ==> c[k] < |nodes|)
    && (forall k {:trigger nodes[c[k]]} :: 0 <= k < |c| ==> nodes[c[k]].next == At(c, k + 1))
  }

  /** Every member sits once in the chain of its own bucket, and in no other. */
  ghost predicate Shape(bk: Spread, nodes: seq<Node>, heads: seq<int>, chains: seq<seq<nat>>, member: set<nat>) {
    && |chains| == |heads| > 0 && SpreadOver(bk, |heads|)
    && (forall b :: 0 <= b < |heads| ==> ChainFrom(nodes, heads[b], chains[b]) && Distinct(chains[b]))
    && (forall b, x :: 0 <= b < |heads| && x in chains[b] ==> x in member && bk(nodes[x].hash) == b)
    && (forall x :: x in member ==> x < |nodes| && x in chains[bk(nodes[x].hash)])
  }

  lemma ChainHead(bk: Spread, nodes: seq<Node>, heads: seq<int>, chains: seq<seq<nat>>, member: set<nat>, b: nat)
    requires Shape(bk, nodes, heads, chains, member) && b < |heads|
    ensures heads[b] == At(chains[b], 0)
  {
    assert ChainFrom(nodes, heads[b], chains[b]);
  }

  lemma ChainMember(bk: Spread, nodes: seq<Node>, heads: seq<int>, chains: seq<seq<nat>>, member: set<nat>, b: nat,
                    k: nat)
    requires Shape(bk, nodes, heads, chains, member) && b < |heads| && k < |chains[b]|
    ensures chains[b][k] in member && chains[b][k] < |nodes| && nodes[chains[b][k]].next == At(chains[b], k + 1)
  {
    assert chains[b][k] in chains[b];
    assert ChainFrom(nodes, heads[b], chains[b]);
  }

  /** An entry is found in the chain its hash names, or nowhere. */
  lemma OnlyInItsChain(bk: Spread, nodes: seq<Node>, heads: seq<int>, chains: seq<seq<nat>>, member: set<nat>, x: nat,
                       key: Key)
    requires Shape(bk, nodes, heads, chains, member) && x in member
    requires NoneBefore(nodes, chains[bk(nodes[x].hash)], |chains[bk(nodes[x].hash)]|, key)
    ensures nodes[x].info.key != key
  {
    assert x in chains[bk(nodes[x].hash)];
  }

  lemma ChainKept(nodes: seq<Node>, head: int, c: seq<nat>, x: nat, node: Node)
    requires ChainFrom(nodes, head, c) && x < |nodes|
    requires x !in c || node.next == nodes[x].next
    ensures ChainFrom(nodes[x := node], head, c)
  {
    forall k | 0 <= k < |c| ensures nodes[x := node][c[k]].next == At(c, k + 1) {
      if c[k] == x { assert x in c; }
    }
  }

  /** Changing an entry's payload leaves the chains alone. */
  lemma PayloadKeepsShape(bk: Spread, nodes: seq<Node>, heads: seq<int>, chains: seq<seq<nat>>, member: set<nat>,
                          x: nat, info: Entry)
    requires Shape(bk, nodes, heads, chains, member) && x < |nodes|
    ensures Shape(bk, nodes[x := nodes[x].(info := info)], heads, chains, member)
  {
    forall b | 0 <= b < |heads| ensures ChainFrom(nodes[x := nodes[x].(info := info)], heads[b], chains[b]) {
      ChainKept(nodes, heads[b], chains[b], x, nodes[x].(info := info));
    }
  }

  lemma PrependChain(nodes: seq<Node>, head: int, c: seq<nat>, x: nat, node: Node)
    requires ChainFrom(nodes, head, c) && x < |nodes| && x !in c && Distinct(c) && node.next == head
    ensures ChainFrom(nodes[x := node], x, [x] + c) && Distinct([x] + c)
  {
    ChainKept(nodes, head, c, x, node);
    DistinctFront(x, c);
  }

  /** A new entry in front of its bucket's chain. */
  lemma PrependShape(bk: Spread, nodes: seq<Node>, heads: seq<int>, chains: seq<seq<nat>>, member: set<nat>, x: nat,
                     node: Node)
    requires Shape(bk, nodes, heads, chains, member) && x < |nodes| && x !in member
    requires node.next == heads[bk(node.hash)]
    ensures var b := bk(node.hash);
            Shape(bk, nodes[x := node], heads[b := x], chains[b := [x] + chains[b]], member + {x})
  {
    var b := bk(node.hash);
    var nodes', heads', chains' := nodes[x := node], heads[b := x], chains[b := [x] + chains[b]];
    forall c | 0 <= c < |heads| ensures ChainFrom(nodes', heads'[c], chains'[c]) && Distinct(chains'[c]) {
      assert x !in chains[c];
      if c == b {
        PrependChain(nodes, heads[b], chains[b], x, node);
      } else {
        ChainKept(nodes, heads[c], chains[c], x, node);
      }
    }
    forall c, y | 0 <= c < |heads| && y in chains'[c]
      ensures y in member + {x} && bk(nodes'[y].hash) == c
    {
      if y != x { assert y in chains[c]; }
    }
    forall y | y in member + {x} ensures y < |nodes| && y in chains'[bk(nodes'[y].hash)] {
      if y != x { assert y in chains[bk(nodes[y].hash)]; }
    }
  }

  lemma DropIs(c: seq<nat>, k: nat)
    requires k < |c| && Distinct(c)
    ensures Distinct(Removed(c, k))
    ensures forall y :: y in Removed(c, k) <==> y in c && y != c[k]
  {
    var r := Removed(c, k);
    forall y ensures y in r <==> y in c && y != c[k] {
      if y in c && y != c[k] {
        var i :| 0 <= i < |c| && c[i] == y;
        assert r[if i < k then i else i - 1] == y;
      }
    }
  }

  /** Relinking around position k > 0 of a chain: the predecessor skips it. */
  lemma SkipChain(nodes: seq<Node>, head: int, c: seq<nat>, k: nat)
    requires ChainFrom(nodes, head, c) && Distinct(c) && 0 < k < |c|
    ensures ChainFrom(nodes[c[k - 1] := nodes[c[k - 1]].(next := nodes[c[k]].next)], head, Removed(c, k))
  {
    var p := c[k - 1];
    var nodes' := nodes[p := nodes[p].(next := nodes[c[k]].next)];
    var r := Removed(c, k);
    forall i | 0 <= i < |r| ensures nodes'[r[i]].next == At(r, i + 1) {
      if i < k - 1 {
        assert c[i] != p && nodes'[c[i]] == nodes[c[i]];
      } else if i == k - 1 {
        assert nodes'[p].next == nodes[c[k]].next;
      } else {
        assert c[i + 1] != p && nodes'[c[i + 1]] == nodes[c[i + 1]];
      }
    }
  }

  lemma BeheadChain(nodes: seq<Node>, head: int, c: seq<nat>)
    requires ChainFrom(nodes, head, c) && c != []
    ensures ChainFrom(nodes, nodes[c[0]].next, Removed(c, 0))
  {
  }

  /** Members after one chain lost its k-th entry, whatever the links look like. */
  lemma MembersAfterDrop(bk: Spread, nodes: seq<Node>, nodes': seq<Node>, chains: seq<seq<nat>>, member: set<nat>,
                         b: nat, k: nat)
    requires |chains| > 0 && SpreadOver(bk, |chains|) && b < |chains| && k < |chains[b]| && Distinct(chains[b])
             && |nodes'| == |nodes|
    requires forall x :: x in member ==> x < |nodes| && x in chains[bk(nodes[x].hash)]
    requires forall c, x :: 0 <= c < |chains| && x in chains[c] ==> x in member && bk(nodes[x].hash) == c
    requires forall x :: 0 <= x < |nodes| ==> nodes'[x].hash == nodes[x].hash
    ensures var chains', member' := chains[b := Removed(chains[b], k)], member - {chains[b][k]};
            && (forall c, x :: 0 <= c < |chains| && x in chains'[c] ==> x in member' && bk(nodes'[x].hash) == c)
            && (forall x :: x in member' ==> x < |nodes| && x in chains'[bk(nodes'[x].hash)])
  {
    var x0 := chains[b][k];
    DropIs(chains[b], k);
    var chains', member' := chains[b := Removed(chains[b], k)], member - {x0};
    forall c, x | 0 <= c < |chains| && x in chains'[c]
      ensures x in member' && bk(nodes'[x].hash) == c
    {
      assert x in chains[c];
      assert x0 in chains[b];
    }
    forall x | x in member' ensures x < |nodes| && x in chains'[bk(nodes'[x].hash)] {
      assert x in chains[bk(nodes[x].hash)];
    }
  }

  /** The pointer-to-link removal of a chain's first entry: the bucket points past it. */
  lemma RemoveFirst(bk: Spread, nodes: seq<Node>, heads: seq<int>, chains: seq<seq<nat>>, member: set<nat>, b: nat)
    requires Shape(bk, nodes, heads, chains, member) && b < |heads| && chains[b] != []
    ensures var c := chains[b];
            Shape(bk, nodes, heads[b := nodes[c[0]].next], chains[b := Removed(c, 0)], member - {c[0]})
  {
    hide ChainFrom;
    var c := chains[b];
    DropIs(c, 0);
    BeheadChain(nodes, heads[b], c);
    MembersAfterDrop(bk, nodes, nodes, chains, member, b, 0);
  }

  lemma OtherChains(bk: Spread, nodes: seq<Node>, heads: seq<int>, chains: seq<seq<nat>>, member: set<nat>, b: nat,
                    d: nat, p: nat, node: Node)
    requires Shape(bk, nodes, heads, chains, member) && b < |heads| && d < |heads| && d != b && p in chains[b]
    ensures p < |nodes| && ChainFrom(nodes[p := node], heads[d], chains[d])
  {
    assert p in member && p < |nodes|;
    assert p !in chains[d];
    ChainKept(nodes, heads[d], chains[d], p, node);
  }

  /** The pointer-to-link removal further down: the predecessor points past it. */
  lemma RemoveInner(bk: Spread, nodes: seq<Node>, heads: seq<int>, chains: seq<seq<nat>>, member: set<nat>, b: nat,
                    k: nat)
    requires Shape(bk, nodes, heads, chains, member) && b < |heads| && 0 < k < |chains[b]|
    ensures var c := chains[b];
            Shape(bk, nodes[c[k - 1] := nodes[c[k - 1]].(next := nodes[c[k]].next)], heads,
                  chains[b := Removed(c, k)], member - {c[k]})
  {
    var c := chains[b];
    DropIs(c, k);
    SkipChain(nodes, heads[b], c, k);
    var p, node := c[k - 1], nodes[c[k - 1]].(next := nodes[c[k]].next);
    var nodes', chains' := nodes[p := node], chains[b := Removed(c, k)];
    assert p in c;
    forall d | 0 <= d < |heads| ensures ChainFrom(nodes', heads[d], chains'[d]) && Distinct(chains'[d]) {
      if d != b { OtherChains(bk, nodes, heads, chains, member, b, d, p, node); }
    }
    MembersAfterDrop(bk, nodes, nodes', chains, member, b, k);
  }

  ghost predicate NoneBefore(nodes: seq<Node>, c: seq<nat>, k: nat, key: Key) {
    forall j :: 0 <= j < k && j < |c| && c[j] < |nodes| ==> nodes[c[j]].info.key != key
  }
}
