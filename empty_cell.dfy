/** An empty cell of the field together with the values still possible there
    (its variants). Records are immutable: removing a variant yields a new one. */
module EmptyCells {
  import opened Fields
  import opened Lists

  datatype EmptyCell = EmptyCell(row: int, col: int, variants: seq<int>) {

    /** The check the constructor makes: every variant is an admissible value. */
    predicate Valid() {
      forall v | v in variants :: IsPossibleValue(v)
    }

    /** removeVariantIfExists: the record without its first occurrence of
        `variant`; the record itself when `variant` is not among its variants. */
    function RemoveVariantIfExists(variant: int): (r: EmptyCell)
      ensures r.row == row && r.col == col
      ensures Valid() ==> r.Valid()
      ensures variant !in variants ==> r == this
      ensures variant in variants ==>
                && |r.variants| == |variants| - 1
                && exists i | 0 <= i < |variants| ::
                     && variants[i] == variant
                     && variant !in variants[..i]
                     && r.variants == variants[..i] + variants[i + 1..]
    {
      if variant in variants then
        EmptyCell(row, col, RemoveFirst(variants, variant))
      else
        this
    }
  }

  /** With distinct variants, removal takes away `variant` and only it, and
      the variants stay distinct. */
  lemma RemoveVariantWithoutDuplicates(e: EmptyCell, variant: int)
    requires NoDuplicates(e.variants)
    ensures NoDuplicates(e.RemoveVariantIfExists(variant).variants)
    ensures forall w :: w in e.RemoveVariantIfExists(variant).variants <==> w in e.variants && w != variant
  {
    RemoveFirstWithoutDuplicates(e.variants, variant);
  }

  /** With distinct variants, removing the same variant twice is removing it once. */
  lemma RemoveVariantIdempotent(e: EmptyCell, variant: int)
    requires NoDuplicates(e.variants)
    ensures e.RemoveVariantIfExists(variant).RemoveVariantIfExists(variant) == e.RemoveVariantIfExists(variant)
  {
    RemoveVariantWithoutDuplicates(e, variant);
  }
}
