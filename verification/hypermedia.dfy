/** Links as the hypermedia responses carry them: a relation and a target. */
module Hypermedia {
  import opened Wrappers

  /** The IANA relations the API uses. */
  const SELF: string := "self"
  const ITEM: string := "item"

  datatype Link = Link(rel: string, href: string)

  /** No two links of a list share a relation. */
  predicate DistinctRels(links: seq<Link>) {
    forall i, j :: 0 <= i < j < |links| ==> links[i].rel != links[j].rel
  }

  /** `getLink(rel)`: the first link with that relation, if any. */
  function GetLink(links: seq<Link>, rel: string): (r: Option<Link>)
    ensures r.Some? ==> r.value in links && r.value.rel == rel
    ensures r.None? <==> forall l :: l in links ==> l.rel != rel
  {
    if links == [] then None
    else if links[0].rel == rel then Some(links[0])
    else GetLink(links[1..], rel)
  }

  /** `hasLink(rel)`. */
  predicate HasLink(links: seq<Link>, rel: string) {
    GetLink(links, rel).Some?
  }

  /** In a list with distinct relations, looking a member's relation up finds
      exactly that member. */
  lemma {:induction false} GetLinkDistinct(links: seq<Link>, i: nat)
    requires DistinctRels(links) && i < |links|
    ensures GetLink(links, links[i].rel) == Some(links[i])
  {
    if i > 0 {
      assert links[0].rel != links[i].rel;
      assert DistinctRels(links[1..]) by {
        forall a, b | 0 <= a < b < |links[1..]| ensures links[1..][a].rel != links[1..][b].rel {
          assert links[1..][a] == links[a + 1] && links[1..][b] == links[b + 1];
        }
      }
      GetLinkDistinct(links[1..], i - 1);
    }
  }
}
