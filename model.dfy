/**
 * Domain records of types/model.ts that the modelled core produces or stores.
 */
module Model {
  /** A table-of-contents entry: the anchor id, the heading text and its level. */
  datatype TOCItem = TOCItem(id: string, text: string, level: nat)

  /** A row of the tags table. The database's string ids are modelled as numbers. */
  datatype Tag = Tag(id: nat, name: string)
}
