/** The root units of each site, checked and inverted (backend/app/core/org_tree.py, `validate_roots`). */
module SiteRoots {
  import opened Common

  type Code = string

  datatype OrgTreeError = RootOfTwoSites(codes: set<Code>)

  /** The codes that are a root of more than one site. */
  ghost predicate Shared(rootsBySite: map<int, set<Code>>, code: Code) {
    exists a, b :: a in rootsBySite && b in rootsBySite && a != b && code in rootsBySite[a] && code in rootsBySite[b]
  }

  ghost predicate OwnerMap(rootsBySite: map<int, set<Code>>, owner: map<Code, int>) {
    && (forall c :: c in owner ==> owner[c] in rootsBySite && c in rootsBySite[owner[c]])
    && (forall s, c :: s in rootsBySite && c in rootsBySite[s] ==> c in owner)
  }

  /** One pass over the sites: the first owner of each root, and the roots met again under another site. */
  method CollectRoots(rootsBySite: map<int, set<Code>>) returns (owner: map<Code, int>, duplicates: set<Code>)
    ensures OwnerMap(rootsBySite, owner)
    ensures forall c :: c in duplicates <==> Shared(rootsBySite, c)
  {
    owner, duplicates := map[], {};
    var sites := rootsBySite.Keys;
    ghost var done: set<int> := {};
    while sites != {}
      invariant done + sites == rootsBySite.Keys && done !! sites
      invariant forall c :: c in owner ==> owner[c] in done && c in rootsBySite[owner[c]]
      invariant forall s, c :: s in done && c in rootsBySite[s] ==> c in owner
      invariant forall s, c :: s in done && c in rootsBySite[s] && owner[c] != s ==> c in duplicates
      invariant forall c :: c in duplicates ==> Shared(rootsBySite, c)
      decreases sites
    {
      ghost var some := SomeElement(sites);
      var site :| site in sites;
      sites := sites - {site};
      var roots := rootsBySite[site];
      var again := set c | c in roots && c in owner;
      forall c | c in again
        ensures Shared(rootsBySite, c)
      {
        assert site in rootsBySite && c in rootsBySite[site];
        assert owner[c] in rootsBySite && owner[c] != site && c in rootsBySite[owner[c]];
      }
      duplicates := duplicates + again;
      owner := owner + map c | c in roots - owner.Keys :: site;
      done := done + {site};
    }
  }
}
