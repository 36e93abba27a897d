/** The XMPP address as the detector renders it: `local@domain/resource`,
    the layout of section 3.1 of RFC 7622. */
module Addresses {
  import opened Utf16
  import opened Wrappers

  /** An address whose parts may each be missing (`null`). Addresses are
      compared by value. */
  datatype Jid = Jid(local: Option<Text>, domain: Option<Text>, resource: Option<Text>)

  /** '@', between the local-part and the domain-part. */
  const At: CodeUnit := 0x40

  /** '/', between the domain-part and the resource-part. */
  const Slash: CodeUnit := 0x2F

  /** The text `style` writes: the local-part and '@' when there is a
      local-part, then the domain-part when there is one, then '/' and the
      resource-part when there is a resource-part and something has already
      been written. The local-part comes first, so offsets into it are
      offsets into the text; without a local-part no '@' is written; a
      resource-part with nothing before it is dropped. */
  function Layout(jid: Jid): (text: Text)
    ensures jid.local.Some? ==>
      |jid.local.value| < |text| && text[..|jid.local.value| + 1] == jid.local.value + [At]
    ensures (&& jid.local.None?
             && (jid.domain.None? || At !in jid.domain.value)
             && (jid.resource.None? || At !in jid.resource.value)) ==> At !in text
    ensures jid.local.None? && (jid.domain.None? || jid.domain.value == []) ==> text == []
  {
    var head := (if jid.local.Some? then jid.local.value + [At] else [])
      + (if jid.domain.Some? then jid.domain.value else []);
    if head != [] && jid.resource.Some? then head + [Slash] + jid.resource.value else head
  }

  /** The offset of the first `u` in `s`, if any. */
  function IndexOf(s: Text, u: CodeUnit): (r: Option<nat>)
    ensures r.None? <==> u !in s
    ensures r.Some? ==> r.value < |s| && s[r.value] == u
    ensures r.Some? ==> forall k :: 0 <= k < r.value ==> s[k] != u
  {
    if s == [] then None
    else if s[0] == u then Some(0)
    else match IndexOf(s[1..], u) {
      case None => None
      case Some(i) => Some(i + 1)
    }
  }

  /** The first step of reading an address back, as section 3.2 of RFC 7622
      does it: everything after the first '/' is the resource-part. */
  function SplitResource(text: Text): (Text, Option<Text>)
  {
    match IndexOf(text, Slash) {
      case None => (text, None)
      case Some(i) => (text[..i], Some(text[i + 1..]))
    }
  }

  /** The second step: of what comes before the resource-part, everything
      before the first '@' is the local-part and the rest is the
      domain-part. */
  function SplitLocal(head: Text): (Option<Text>, Text)
  {
    match IndexOf(head, At) {
      case None => (None, head)
      case Some(j) => (Some(head[..j]), head[j + 1..])
    }
  }

  /** Reads an address back from its text. */
  function SplitAddress(text: Text): (jid: Jid)
    ensures jid.domain.Some?
  {
    var (head, resource) := SplitResource(text);
    var (local, domain) := SplitLocal(head);
    Jid(local, Some(domain), resource)
  }

  /** An address is a well-formed one when it has a non-empty domain-part and
      neither the local-part nor the domain-part holds a separator. */
  predicate WellFormed(jid: Jid)
  {
    && jid.domain.Some? && jid.domain.value != []
    && At !in jid.domain.value && Slash !in jid.domain.value
    && (jid.local.Some? ==> At !in jid.local.value && Slash !in jid.local.value)
  }

  /** The first `u` of `p + [u] + q` is the one after `p` when `p` has none. */
  lemma IndexOfSeparator(p: Text, u: CodeUnit, q: Text)
    requires u !in p
    ensures IndexOf(p + [u] + q, u) == Some(|p|)
  {
    var s := p + [u] + q;
    assert s[|p|] == u;
    assert forall k :: 0 <= k < |p| ==> s[k] == p[k];
  }

  /** The resource-part is split off at the '/' the layout wrote. */
  lemma SplitResourceOfLayout(head: Text, resource: Option<Text>)
    requires Slash !in head
    ensures SplitResource(head + if resource.Some? then [Slash] + resource.value else [])
      == (head, resource)
  {
    if resource.Some? {
      IndexOfSeparator(head, Slash, resource.value);
      assert head + ([Slash] + resource.value) == head + [Slash] + resource.value;
      assert (head + [Slash] + resource.value)[..|head|] == head;
      assert (head + [Slash] + resource.value)[|head| + 1..] == resource.value;
    } else {
      assert head + [] == head;
    }
  }

  /** The local-part is split off at the '@' the layout wrote. */
  lemma SplitLocalOfLayout(local: Option<Text>, domain: Text)
    requires At !in domain && (local.Some? ==> At !in local.value)
    ensures SplitLocal((if local.Some? then local.value + [At] else []) + domain) == (local, domain)
  {
    if local.Some? {
      IndexOfSeparator(local.value, At, domain);
      assert (local.value + [At] + domain)[..|local.value|] == local.value;
      assert (local.value + [At] + domain)[|local.value| + 1..] == domain;
    } else {
      assert [] + domain == domain;
    }
  }

  /** Reading back what `style` writes gives the address it was written
      from: the layout loses nothing and puts every part in its place. */
  lemma LayoutRoundTrip(jid: Jid)
    requires WellFormed(jid)
    ensures SplitAddress(Layout(jid)) == jid
  {
    var head := (if jid.local.Some? then jid.local.value + [At] else []) + jid.domain.value;
    assert Slash !in head;
    assert Layout(jid) == head + if jid.resource.Some? then [Slash] + jid.resource.value else [];
    SplitResourceOfLayout(head, jid.resource);
    SplitLocalOfLayout(jid.local, jid.domain.value);
  }
}
