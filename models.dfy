/**
 * The records of the relational tables (models.py). A table is modelled as a
 * finite map from its integer primary key to the row's other columns; the
 * key is the `id` column.
 */
module Models {

  /** A row of `categories`: its `type` column, the display label. */
  datatype Category = Category(typeName: string)

  /** A row of `items`: title, brand, category (a category id, not checked) and comment. */
  datatype Item = Item(title: string, brand: string, category: int, comment: string)

  /**
   * A row of `temp_comments` or `comments`. The classes themselves are not
   * defined in models.py; only the columns the pagination helpers need are
   * kept, and the floating-point `rating` is left out.
   */
  datatype Comment = Comment(text: string, item: int, userId: int)

  /** The range of a PostgreSQL `integer` column, which `Column(Integer)` maps to. */
  const IntegerMin: int := -0x8000_0000
  const IntegerMax: int := 0x7FFF_FFFF

  /** The largest PostgreSQL `bigint`, the type of an `OFFSET` count. */
  const BigintMax: int := 0x7FFF_FFFF_FFFF_FFFF

  predicate FitsInteger(n: int)
  {
    IntegerMin <= n <= IntegerMax
  }

  /** PostgreSQL refuses the NUL character in a text value. */
  predicate StorableText(s: string)
  {
    forall i :: 0 <= i < |s| ==> s[i] != '\0'
  }

  /** An item the `items` table accepts: the database raises on any other. */
  predicate Storable(x: Item)
  {
    FitsInteger(x.category) && StorableText(x.title) && StorableText(x.brand) && StorableText(x.comment)
  }
}
