/**
 * The records both generators read from a faction's JSON file, after
 * `JSON.parse`, and JavaScript's truthiness on the fields they test.
 */
module Faction {
  import opened Wrappers

  /** A player or master entry. A field that is absent (or `undefined`) is `None`. */
  datatype Item = Item(name: Option<string>, owner: Option<string>, text: Option<string>, image: Option<string>)

  /** The `players` or `masters` member: absent or another falsy value, a
      truthy value that is not an array, or an array of entries. */
  datatype Listing = Absent | NotArray | Array(items: seq<Item>)

  datatype Record = Record(name: Option<string>, icon: Option<string>, text: Option<string>,
                           players: Listing, masters: Listing)

  /** What reading and parsing one slug's JSON file gives: the file is
      missing, `JSON.parse` throws on the normalised text, the document is
      `null` (reading any field of it throws), or a record. A document that
      is a number, a string, an array or a boolean has none of the fields, so
      it is the record whose fields are all absent. */
  datatype Load = NotFound | Malformed | Null | Loaded(data: Record)

  /** What reading the file of `slug` gives; a file not listed is missing. */
  function LoadOf(files: map<string, Load>, slug: string): (load: Load)
    ensures slug !in files ==> load == NotFound
    ensures slug in files ==> load == files[slug]
  {
    if slug in files then files[slug] else NotFound
  }

  /** A string field is truthy when present and non-empty. */
  predicate Truthy(f: Option<string>) {
    f.Some? && f.value != ""
  }

  /** `f || d`: the field when it is truthy, the default otherwise. */
  function OrDefault(f: Option<string>, d: string): (s: string)
    ensures Truthy(f) ==> s == f.value
    ensures !Truthy(f) ==> s == d
  {
    if Truthy(f) then f.value else d
  }

  /** `f || ''`. */
  function OrEmpty(f: Option<string>): string {
    OrDefault(f, "")
  }
}
