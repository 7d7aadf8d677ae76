/** Where an unwrapped URN goes: which identifiers a list of catalogs is really asked for. */
module CatalogIds {

  import opened Optional
  import opened CatalogUrn
  import opened CatalogLocal
  import opened CatalogResolve

  /** A system identifier in the urn:publicid: namespace, without a public identifier,
      is a public identifier. */
  lemma SystemUrnIsPublic(store: Store, depth: Depths, cats: seq<Url>, p: string)
    requires Ready(store, depth) && Within(store, cats) && |p| <= URN_BUFFER - 3
    ensures ListResolve(store, depth, cats, None, Some(URN_PUBID + Wrap(p)))
            == ListResolve(store, depth, cats, Some(p), None)
  {
    UnwrapWrap(p);
  }

  /** Beside a public identifier it is the same one again, and is dropped, exactly when
      that one's normal form is `p`; otherwise `p` is the system identifier. */
  lemma SystemUrnBesidePublic(store: Store, depth: Depths, cats: seq<Url>, pub: string, p: string)
    requires Ready(store, depth) && Within(store, cats) && |p| <= URN_BUFFER - 3
    requires Normalize(pub) != "" && !HasPrefix(Normalize(pub), URN_PUBID)
    ensures ListResolve(store, depth, cats, Some(pub), Some(URN_PUBID + Wrap(p)))
            == if Normalize(pub) == p then ListResolve(store, depth, cats, Some(pub), None)
               else ListResolve(store, depth, cats, Some(pub), Some(p))
  {
    UnwrapWrap(p);
    NormalizeIdempotent(pub);
    SameNormal(store, depth, cats, pub, Some(p));
    SameNormal(store, depth, cats, pub, None);
  }

  /** A public identifier may as well be given in its normal form. */
  lemma SameNormal(store: Store, depth: Depths, cats: seq<Url>, pub: string, sys: Option<string>)
    requires Ready(store, depth) && Within(store, cats) && Normalize(pub) != ""
    ensures ListResolve(store, depth, cats, Some(pub), sys) == ListResolve(store, depth, cats, Some(Normalize(pub)), sys)
  {
    NormalizeIdempotent(pub);
  }

  /** A public identifier of blanks only counts as none. */
  lemma BlankIsNone(store: Store, depth: Depths, cats: seq<Url>, pub: string, sys: string)
    requires Ready(store, depth) && Within(store, cats) && Words(pub) == []
    ensures ListResolve(store, depth, cats, Some(pub), Some(sys)) == ListResolve(store, depth, cats, None, Some(sys))
  {
    EntryNamesWords("", "", true, pub);
  }

  /** A public identifier in that namespace is unwrapped, whatever the system identifier. */
  lemma PublicUrnUnwraps(store: Store, depth: Depths, cats: seq<Url>, pub: string, p: string, sys: Option<string>)
    requires Ready(store, depth) && Within(store, cats) && |p| <= URN_BUFFER - 3
    requires Normalize(pub) == URN_PUBID + Wrap(p)
    ensures ListResolve(store, depth, cats, Some(pub), sys) == ListResolve(store, depth, cats, Some(p), sys)
  {
    UnwrapWrap(p);
  }
}
