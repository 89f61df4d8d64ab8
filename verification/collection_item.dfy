/** The common base of every stored record: an id and two timestamps. */
module CollectionItems {
  import opened Outcomes

  /** Timestamps are modelled as integers read from a clock. */
  datatype CollectionItem = CollectionItem(id: string, createdAt: int, modifiedAt: int)

  /** The constructor's optional argument; each absent field takes its default. */
  datatype ItemProps = ItemProps(id: Option<string>, createdAt: Option<int>, modifiedAt: Option<int>)

  const NoProps := ItemProps(None, None, None)

  /**
   * `new CollectionItem(defaultProps)`, where `defaultProps` is `None` when the
   * argument is omitted and `now` is the clock reading taken by the constructor.
   */
  function NewCollectionItem(defaultProps: Option<ItemProps>, now: int): (r: CollectionItem)
    ensures var p := defaultProps.GetOr(NoProps);
            && (p.id.Some? ==> r.id == p.id.value)
            && (p.createdAt.Some? ==> r.createdAt == p.createdAt.value)
            && (p.modifiedAt.Some? ==> r.modifiedAt == p.modifiedAt.value)
    ensures var p := defaultProps.GetOr(NoProps);
            && (p.id.None? ==> r.id == "")
            && (p.createdAt.None? ==> r.createdAt == now)
            && (p.modifiedAt.None? ==> r.modifiedAt == now)
  {
    var p := defaultProps.GetOr(NoProps);
    CollectionItem(p.id.GetOr(""), p.createdAt.GetOr(now), p.modifiedAt.GetOr(now))
  }

  /** Omitting the argument is the same as passing `{}`: every default applies. */
  lemma NoArgumentMeansAllDefaults(now: int)
    ensures NewCollectionItem(None, now) == NewCollectionItem(Some(NoProps), now)
    ensures NewCollectionItem(None, now) == CollectionItem("", now, now)
  {
  }

  /** A fully supplied argument is copied unchanged, whatever the clock says. */
  lemma SuppliedPropsAreCopied(id: string, createdAt: int, modifiedAt: int, now: int)
    ensures NewCollectionItem(Some(ItemProps(Some(id), Some(createdAt), Some(modifiedAt))), now)
         == CollectionItem(id, createdAt, modifiedAt)
  {
  }
}
