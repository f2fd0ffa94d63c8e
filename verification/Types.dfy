/** Records shared by the content pipeline. */
module Types {

  datatype Option<+T> = None | Some(value: T)

  datatype Result<+T, +E> = Ok(value: T) | Err(error: E)

  /** A JSON value as the pipeline compares it: object keys carry no order, so `==`
      is what `isDeepStrictEqual` decides. */
  datatype Json =
    | Null
    | Bool(b: bool)
    | Num(n: int)      // only equality of numbers matters, so each is named by an integer
    | Str(s: string)
    | Arr(items: seq<Json>)
    | Obj(fields: map<string, Json>)

  datatype SourceKey = Cldr | UnM49 | Annexare | WorldBank | Wikidata | FlagIcons | Editorial

  datatype Provenance = Provenance(sourceKey: SourceKey, revision: string, retrievedAt: string)

  datatype Kind =
    | IsoAlpha2 | IsoAlpha3 | M49 | IsoSubdivision | LocalCode
    | FipsCode | WikidataId | EditorialKey | CustomCode

  /** One `kind:value` entry of a reference. No kind contains a colon, so the pair
      and the joined string say the same. */
  datatype Identifier = Identifier(kind: Kind, value: string)

  /** The entries of an entity reference, in property order. */
  type Reference = seq<Identifier>

  datatype FieldPatch = FieldPatch(
    entity: Reference, path: string, value: Json, priority: int, provenance: Provenance)

  datatype EditorialEntity = EditorialEntity(key: string, identifiers: Reference)
}
