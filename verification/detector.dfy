/** `IrregularUnicodeBlockDetector`: renders an XMPP address and marks the
    code points of its local-part that do not belong to the local-part's
    majority Unicode block, remembering one pattern per address in a
    100-entry least-recently-used cache. */
module Detector {
  import opened Utf16
  import opened Wrappers
  import opened UnicodeBlocks
  import opened ScriptGroups
  import opened Patterns
  import opened Addresses

  /** The capacity of `CACHE`. */
  const CacheCapacity := 100

  /** What `style` returns: the text written, and the spans set on it. */
  datatype Rendered = Rendered(text: Text, marks: seq<Span>)

  /** `hashOrder` gives, for every key set, an order visiting each key once:
      the iteration order of a `HashMap` holding those keys. */
  ghost predicate IsHashOrder(hashOrder: set<Block> -> seq<Block>)
  {
    forall keys :: Enumerates(hashOrder(keys), keys)
  }

  /** The groups of a local-part, as `map` builds them. */
  function GroupsOf(classify: Classifier, local: Text): Groups
  {
    Partition(classify, CodePoints(local))
  }

  /** The majority block of a local-part, as `eliminateFirstAndGetCodePoints`
      elects it. */
  function MajorityOf(classify: Classifier, hashOrder: set<Block> -> seq<Block>, local: Text): Block
    requires IsHashOrder(hashOrder)
  {
    var g := GroupsOf(classify, local);
    Majority(g, hashOrder(g.Keys))
  }

  /** The minority code points of a local-part: what
      `eliminateFirstAndGetCodePoints(map(jid))` returns. */
  function MinorityOf(classify: Classifier, hashOrder: set<Block> -> seq<Block>, local: Text): set<CodePoint>
    requires IsHashOrder(hashOrder)
  {
    var cps := CodePoints(local);
    Minority(classify, cps, hashOrder(Partition(classify, cps).Keys))
  }

  /** The code points of `cps` whose block is not `m`, in order, with repeats. */
  function Outside(classify: Classifier, cps: seq<CodePoint>, m: Block): (r: seq<CodePoint>)
    ensures forall c :: c in r <==> c in cps && Key(classify, c) != m
  {
    if cps == [] then []
    else (if Key(classify, cps[0]) != m then [cps[0]] else []) + Outside(classify, cps[1..], m)
  }

  /** Keeping the code points of `cps` that are in `lits` is keeping those
      outside block `m`, when `lits` holds exactly the code points of `cps`
      outside `m`. */
  lemma {:induction false} KeepIsOutside(classify: Classifier, cps: seq<CodePoint>, lits: set<CodePoint>, m: Block)
    requires forall c :: c in cps ==> (c in lits <==> Key(classify, c) != m)
    ensures Keep(cps, lits) == Outside(classify, cps, m)
  {
    if cps != [] {
      KeepIsOutside(classify, cps[1..], lits, m);
    }
  }

  /** The spans `style` sets on a local-part mark, in order, exactly the code
      points of the local-part whose normalized block is not the majority
      block: one span per occurrence, each covering that one code point. */
  lemma MarksAreOutsideMajority(classify: Classifier, hashOrder: set<Block> -> seq<Block>, local: Text)
    requires IsHashOrder(hashOrder)
    ensures |LiteralSpans(MinorityOf(classify, hashOrder, local), local, 0)|
      == |Outside(classify, CodePoints(local), MajorityOf(classify, hashOrder, local))|
    ensures forall k :: 0 <= k < |LiteralSpans(MinorityOf(classify, hashOrder, local), local, 0)| ==>
      var span := LiteralSpans(MinorityOf(classify, hashOrder, local), local, 0)[k];
      && span.start < span.end <= |local|
      && CodePointAt(local, span.start)
         == Outside(classify, CodePoints(local), MajorityOf(classify, hashOrder, local))[k]
  {
    var cps := CodePoints(local);
    var lits := MinorityOf(classify, hashOrder, local);
    var m := MajorityOf(classify, hashOrder, local);
    var order := hashOrder(Partition(classify, cps).Keys);
    forall c | c in cps ensures c in lits <==> Key(classify, c) != m {
      MinorityIff(classify, cps, order, c);
    }
    KeepIsOutside(classify, cps, lits, m);
    LiteralSpansMarkEachLiteral(lits, local, 0);
    LiteralSpansWellFormed(lits, local, 0);
  }

  /** A local-part written in one normalized block, or an empty one, gets no
      marks. */
  lemma SingleScriptIsUnmarked(classify: Classifier, hashOrder: set<Block> -> seq<Block>, local: Text, b: Block)
    requires IsHashOrder(hashOrder)
    requires forall c :: c in CodePoints(local) ==> Key(classify, c) == b
    ensures LiteralSpans(MinorityOf(classify, hashOrder, local), local, 0) == []
  {
    var cps := CodePoints(local);
    SingleBlockHasNoMinority(classify, cps, hashOrder(Partition(classify, cps).Keys), b);
    NothingToMark(local, 0);
  }

  /** `create(eliminateFirstAndGetCodePoints(map(jid)))` for a local-part:
      the literal alternation of its minority code points. */
  method MinorityPattern(classify: Classifier, hashOrder: set<Block> -> seq<Block>, local: Text) returns (p: Pattern)
    requires IsHashOrder(hashOrder)
    ensures IsAlternation(p.source)
    ensures Literals(p.source) == MinorityOf(classify, hashOrder, local)
  {
    var groups := MapLocal(classify, local);
    var remaining, all := EliminateFirstAndGetCodePoints(groups, hashOrder(groups.Keys));
    p := Create(all);
  }

  /** A cache entry is right when its address has a local-part and its
      pattern is the literal alternation of that local-part's minority code
      points. */
  ghost predicate EntryIsRight(classify: Classifier, hashOrder: set<Block> -> seq<Block>, jid: Jid, p: Pattern)
  {
    && IsHashOrder(hashOrder)
    && jid.local.Some?
    && IsAlternation(p.source)
    && Literals(p.source) == MinorityOf(classify, hashOrder, jid.local.value)
  }

  /** The state of `CACHE`: at most `CacheCapacity` entries, `recency`
      listing their keys once each from least to most recently used, and
      every entry right. */
  ghost predicate CacheIsValid(classify: Classifier, hashOrder: set<Block> -> seq<Block>,
                               cache: map<Jid, Pattern>, recency: seq<Jid>)
  {
    && IsHashOrder(hashOrder)
    && Enumerates(recency, cache.Keys)
    && |recency| <= CacheCapacity
    && forall jid :: jid in cache ==> EntryIsRight(classify, hashOrder, jid, cache[jid])
  }

  /** A hit makes its key the most recently used and keeps the cache valid. */
  lemma HitKeepsCacheValid(classify: Classifier, hashOrder: set<Block> -> seq<Block>,
                           cache: map<Jid, Pattern>, recency: seq<Jid>, jid: Jid)
    requires CacheIsValid(classify, hashOrder, cache, recency) && jid in cache
    ensures CacheIsValid(classify, hashOrder, cache, Without(recency, jid) + [jid])
  {
    MoveToEnd(recency, cache.Keys, jid);
  }

  /** Putting a right entry under a new key, as the most recently used, and
      evicting the least recently used entry when the cache outgrows its
      capacity, keeps the cache valid. */
  lemma PutKeepsCacheValid(classify: Classifier, hashOrder: set<Block> -> seq<Block>,
                           cache: map<Jid, Pattern>, recency: seq<Jid>, jid: Jid, p: Pattern)
    requires CacheIsValid(classify, hashOrder, cache, recency) && jid !in cache
    requires EntryIsRight(classify, hashOrder, jid, p)
    ensures |recency| < CacheCapacity ==>
      CacheIsValid(classify, hashOrder, cache[jid := p], recency + [jid])
    ensures |recency| == CacheCapacity ==>
      CacheIsValid(classify, hashOrder, cache[jid := p] - {recency[0]}, recency[1..] + [jid])
  {
    assert cache[jid := p].Keys == cache.Keys + {jid};
    if |recency| == CacheCapacity {
      AppendThenDropFirst(recency, cache.Keys, jid);
      assert (cache[jid := p] - {recency[0]}).Keys == cache.Keys + {jid} - {recency[0]};
    } else {
      EnumeratesAppend(recency, cache.Keys, jid);
    }
  }

  /** How one `find(jid)` leaves the cache `cache0`, `recency0`: a hit keeps
      every entry and makes `jid` the most recently used; a miss stores
      `jid` as the most recently used entry and, once the cache is full,
      evicts the least recently used one. */
  ghost predicate FoundIn(cache0: map<Jid, Pattern>, recency0: seq<Jid>, jid: Jid,
                          cache: map<Jid, Pattern>, recency: seq<Jid>)
  {
    && jid in cache
    && (jid in cache0 ==>
          && cache == cache0
          && recency == Without(recency0, jid) + [jid])
    && (jid !in cache0 && |recency0| < CacheCapacity ==>
          && cache == cache0[jid := cache[jid]]
          && recency == recency0 + [jid])
    && (jid !in cache0 && |recency0| == CacheCapacity ==>
          && cache == cache0[jid := cache[jid]] - {recency0[0]}
          && recency == recency0[1..] + [jid])
  }

  /** The detector with its `CACHE`. `classify` stands for
      `Character.UnicodeBlock.of`, `hashOrder` for the iteration order of the
      `HashMap` that `map` builds. The cache is a map from addresses to
      patterns together with its keys from least to most recently used. */
  class IrregularUnicodeBlockDetector {
    const classify: Classifier
    const hashOrder: set<Block> -> seq<Block>
    var cache: map<Jid, Pattern>
    var recency: seq<Jid>

    ghost predicate Valid()
      reads this
    {
      CacheIsValid(classify, hashOrder, cache, recency)
    }

    /** An empty cache. */
    constructor (classify: Classifier, hashOrder: set<Block> -> seq<Block>)
      requires IsHashOrder(hashOrder)
      ensures Valid()
      ensures this.classify == classify && this.hashOrder == hashOrder
      ensures cache == map[] && recency == []
    {
      this.classify := classify;
      this.hashOrder := hashOrder;
      cache := map[];
      recency := [];
    }

    /** The cache never holds more than `CacheCapacity` entries. */
    lemma CacheIsBounded()
      requires Valid()
      ensures |cache| <= CacheCapacity
    {
      EnumeratesSize(recency, cache.Keys);
    }

    /** `find`: the cached pattern for `jid`, made the most recently used;
        or, on a miss, `create(eliminateFirstAndGetCodePoints(map(jid)))`,
        stored as the most recently used entry, evicting the least recently
        used one when the cache outgrows its capacity. Either way the
        pattern matches exactly the minority code points of the
        local-part. */
    method Find(jid: Jid) returns (p: Pattern)
      requires Valid() && jid.local.Some?
      modifies this
      ensures Valid()
      ensures EntryIsRight(classify, hashOrder, jid, p)
      ensures jid in cache && cache[jid] == p
      ensures old(jid in cache) ==> p == old(cache[jid])
      ensures FoundIn(old(cache), old(recency), jid, cache, recency)
    {
      if jid in cache {
        p := cache[jid];
        HitKeepsCacheValid(classify, hashOrder, cache, recency, jid);
        recency := Without(recency, jid) + [jid];
        return;
      }
      p := MinorityPattern(classify, hashOrder, jid.local.value);
      PutKeepsCacheValid(classify, hashOrder, cache, recency, jid, p);
      assert recency != [] ==> recency[0] != jid;
      cache := cache[jid := p];
      recency := recency + [jid];
      if |recency| > CacheCapacity {
        var eldest := recency[0];
        assert recency[1..] == old(recency)[1..] + [jid];
        cache := cache - {eldest};
        recency := recency[1..];
      }
    }

    /** The marking half of `style(jid, color)`: the non-empty matches of
        `find(jid)` in the local-part, which are the spans of the
        local-part's minority code points. */
    method MarkLocal(jid: Jid) returns (marks: seq<Span>)
      requires Valid() && jid.local.Some?
      modifies this
      ensures Valid()
      ensures FoundIn(old(cache), old(recency), jid, cache, recency)
      ensures marks == LiteralSpans(MinorityOf(classify, hashOrder, jid.local.value), jid.local.value, 0)
    {
      var pattern := Find(jid);
      marks := MarkMatches(pattern, jid.local.value);
    }

    /** `style(jid, color)`: writes the local-part and '@' when there is a
        local-part, then the domain-part when there is one, then '/' and the
        resource-part when there is one and something has been written; the
        local-part is marked by `MarkLocal`. Only an address with a
        local-part consults the cache. */
    method Style(jid: Jid) returns (r: Rendered)
      requires Valid()
      modifies this
      ensures Valid()
      ensures r.text == Layout(jid)
      ensures jid.local.Some? ==>
        r.marks == LiteralSpans(MinorityOf(classify, hashOrder, jid.local.value), jid.local.value, 0)
      ensures jid.local.Some? ==> FoundIn(old(cache), old(recency), jid, cache, recency)
      ensures jid.local.None? ==> r.marks == [] && cache == old(cache) && recency == old(recency)
    {
      var builder: Text := [];
      var marks: seq<Span> := [];
      if jid.local.Some? {
        marks := MarkLocal(jid);
        builder := builder + jid.local.value;
        builder := builder + [At];
      }
      // The two assertions below name the text written so far; without them
      // the solver does not reach `Layout(jid)` within its resource bound.
      assert builder == if jid.local.Some? then jid.local.value + [At] else [];
      if jid.domain.Some? {
        builder := builder + jid.domain.value;
      }
      assert builder == (if jid.local.Some? then jid.local.value + [At] else [])
        + (if jid.domain.Some? then jid.domain.value else []);
      if |builder| != 0 && jid.resource.Some? {
        builder := builder + [Slash];
        builder := builder + jid.resource.value;
      }
      r := Rendered(builder, marks);
    }
  }
}
