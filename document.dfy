/** The typed view of the three JSON document shapes the editor loads: a
    price catalogue (`TraderCategories`), the trader definitions (`Traders`)
    and the trader-to-category table (`IDs`). Keys the editor never reads are
    kept as opaque JSON values so that they survive every edit. */
module Document {
  import opened Wrappers
  import opened Seqs

  /** A JSON value, kept unexamined. */
  datatype Json =
    | JNull
    | JBool(b: bool)
    | JInt(i: int)
    | JFloat(f: real)
    | JString(s: string)
    | JArray(items: seq<Json>)
    | JObject(fields: map<string, Json>)

  /** An entry of `TraderCategories`: `CategoryName`, `Products` (each an
      encoded product line) and any other keys. */
  datatype Category = Category(name: string, products: seq<string>, rest: map<string, Json>)

  /** An entry of `Traders`. The editor reads these keys with `dict.get`, so
      each may be absent; `rest` holds the others (`Clothes`, ...). */
  datatype Trader = Trader(
    id: Option<int>,
    name: Option<string>,
    givenName: Option<string>,
    role: Option<string>,
    position: Option<seq<Json>>,
    orientation: Option<seq<Json>>,
    rest: map<string, Json>)

  /** An entry of `IDs`: `Id`, `Categories` and the other keys
      (`LicencesRequired`, `CurrenciesAccepted`, ...). */
  datatype IdEntry = IdEntry(id: Option<int>, categories: Option<seq<string>>, rest: map<string, Json>)

  /** The loaded top-level object: one optional collection per discriminating
      key, and every other top-level key. */
  datatype Document = Document(
    categories: Option<seq<Category>>,
    traders: Option<seq<Trader>>,
    ids: Option<seq<IdEntry>>,
    rest: map<string, Json>)

  /** The editor's `file_type`: "price", "general", "ids" or "unknown". */
  datatype FileType = Price | General | Ids | Unknown

  /** `config_data = {}` before anything is loaded. */
  const EmptyDocument: Document := Document(None, None, None, map[])

  /** `rest` holds only keys the editor does not read itself, so every key
      lives in exactly one place of the typed view. */
  predicate CategoryWellFormed(c: Category) {
    "CategoryName" !in c.rest && "Products" !in c.rest
  }

  predicate TraderWellFormed(t: Trader) {
    forall key | key in ["Id", "Name", "GivenName", "Role", "Position", "Orientation"] :: key !in t.rest
  }

  predicate EntryWellFormed(e: IdEntry) {
    "Id" !in e.rest && "Categories" !in e.rest
  }

  predicate WellFormed(d: Document) {
    && "TraderCategories" !in d.rest && "Traders" !in d.rest && "IDs" !in d.rest
    && (d.categories.Some? ==> forall i :: 0 <= i < |d.categories.value| ==> CategoryWellFormed(d.categories.value[i]))
    && (d.traders.Some? ==> forall i :: 0 <= i < |d.traders.value| ==> TraderWellFormed(d.traders.value[i]))
    && (d.ids.Some? ==> forall i :: 0 <= i < |d.ids.value| ==> EntryWellFormed(d.ids.value[i]))
  }

  /** `detect_file_type`: the first discriminating key present, in the order
      `TraderCategories`, `Traders`, `IDs`. */
  function Classify(d: Document): (t: FileType)
    ensures t == Price <==> d.categories.Some?
    ensures t == General <==> d.categories.None? && d.traders.Some?
    ensures t == Ids <==> d.categories.None? && d.traders.None? && d.ids.Some?
    ensures t == Unknown <==> d.categories.None? && d.traders.None? && d.ids.None?
  {
    if d.categories.Some? then Price
    else if d.traders.Some? then General
    else if d.ids.Some? then Ids
    else Unknown
  }

  /** Two documents with the same discriminating keys present are classified
      alike, whatever their contents. */
  lemma ClassifyByKeysOnly(d1: Document, d2: Document)
    requires d1.categories.Some? == d2.categories.Some?
    requires d1.traders.Some? == d2.traders.Some?
    requires d1.ids.Some? == d2.ids.Some?
    ensures Classify(d1) == Classify(d2)
  {
  }

  /** What the editor's `file_type` tells about the document it holds. A
      "price" editor holds categories or no collection at all (the state
      before any file is loaded); "general" and "ids" keep their
      classification; an "unknown" editor holds no categories and no traders,
      though adding an entry creates an `IDs` list. */
  predicate Agrees(t: FileType, d: Document) {
    match t
    case Price => d.categories.Some? || (d.traders.None? && d.ids.None?)
    case General => Classify(d) == General
    case Ids => Classify(d) == Ids
    case Unknown => d.categories.None? && d.traders.None?
  }

  lemma ClassifyAgrees(d: Document)
    ensures Agrees(Classify(d), d)
  {
  }

  /** Agreement depends only on which of the three collections are present. */
  lemma AgreesByKeysOnly(t: FileType, d1: Document, d2: Document)
    requires d1.categories.Some? == d2.categories.Some?
    requires d1.traders.Some? == d2.traders.Some?
    requires d1.ids.Some? == d2.ids.Some?
    ensures Agrees(t, d1) == Agrees(t, d2)
  {
  }

  /** A price editor that creates or replaces its categories still agrees. */
  lemma AgreesWithCategories(d: Document, cats: seq<Category>)
    ensures Agrees(Price, d.(categories := Some(cats)))
  {
  }

  /** An "ids" or "unknown" editor that creates or replaces its `IDs` list
      still agrees. */
  lemma AgreesWithIds(t: FileType, d: Document, ids: seq<IdEntry>)
    requires Agrees(t, d) && (t == Ids || t == Unknown)
    ensures Agrees(t, d.(ids := Some(ids)))
  {
  }

  // ---------------------------------------------------------------------------
  // Fields as the editor reads them

  /** `trader.get('GivenName', 'Неизвестный')`, as the list shows it. */
  function ShownGivenName(t: Trader): string { t.givenName.GetOr("Неизвестный") }

  /** `trader.get('Role', 'Торговец')`. */
  function ShownRole(t: Trader): string { t.role.GetOr("Торговец") }

  /** `trader.get('Id', -1)`. */
  function ShownTraderId(t: Trader): int { t.id.GetOr(-1) }

  /** `trader.get('GivenName', '')`, the key a trader is deleted by. */
  function GivenNameKey(t: Trader): string { t.givenName.GetOr("") }

  /** `trader_id.get('Id', -1)`. */
  function ShownEntryId(e: IdEntry): int { e.id.GetOr(-1) }

  /** `trader_id.get('Categories', [])`. */
  function EntryCategories(e: IdEntry): seq<string> { e.categories.GetOr([]) }

  /** `config_data.get('TraderCategories', [])` and its two siblings: the
      collection an add appends to, created empty when absent. */
  function CategoriesOf(d: Document): seq<Category> { d.categories.GetOr([]) }

  function TradersOf(d: Document): seq<Trader> { d.traders.GetOr([]) }

  function IdsOf(d: Document): seq<IdEntry> { d.ids.GetOr([]) }

  /** The keys the delete loops compare with the selected label. */
  function CategoryNames(cats: seq<Category>): (r: seq<string>)
    ensures |r| == |cats| && forall i :: 0 <= i < |cats| ==> r[i] == cats[i].name
  {
    seq(|cats|, i requires 0 <= i < |cats| => cats[i].name)
  }

  function GivenNameKeys(traders: seq<Trader>): (r: seq<string>)
    ensures |r| == |traders| && forall i :: 0 <= i < |traders| ==> r[i] == GivenNameKey(traders[i])
  {
    seq(|traders|, i requires 0 <= i < |traders| => GivenNameKey(traders[i]))
  }

  /** `trader_id.get('Id')` of each entry (`None` when absent). */
  function EntryIds(ids: seq<IdEntry>): (r: seq<Option<int>>)
    ensures |r| == |ids| && forall i :: 0 <= i < |ids| ==> r[i] == ids[i].id
  {
    seq(|ids|, i requires 0 <= i < |ids| => ids[i].id)
  }

  /** Deleting a category by name finds position `i` exactly when it is the
      first category with that name. */
  lemma FirstCategoryNamed(cats: seq<Category>, n: string, i: nat)
    ensures IndexOf(CategoryNames(cats), n) == Some(i)
      <==> i < |cats| && cats[i].name == n && forall m :: 0 <= m < i ==> cats[m].name != n
  {
    IndexOfIs(CategoryNames(cats), n, i);
  }

  /** Deleting a trader by key finds position `i` exactly when it is the first
      trader whose `GivenName` (or "" without one) is that key. */
  lemma FirstTraderKeyed(traders: seq<Trader>, key: string, i: nat)
    ensures IndexOf(GivenNameKeys(traders), key) == Some(i)
      <==> (i < |traders| && GivenNameKey(traders[i]) == key
            && forall m :: 0 <= m < i ==> GivenNameKey(traders[m]) != key)
  {
    IndexOfIs(GivenNameKeys(traders), key, i);
  }

  /** Deleting an `IDs` entry by Id finds position `i` exactly when it is the
      first entry holding that Id; an entry without `Id` never matches a
      parsed Id. */
  lemma FirstEntryWithId(ids: seq<IdEntry>, id: int, i: nat)
    ensures IndexOf(EntryIds(ids), Some(id)) == Some(i)
      <==> i < |ids| && ids[i].id == Some(id) && forall m :: 0 <= m < i ==> ids[m].id != Some(id)
  {
    IndexOfIs(EntryIds(ids), Some(id), i);
  }

  // ---------------------------------------------------------------------------
  // New entities

  const ZeroVector: seq<Json> := [JInt(0), JInt(0), JInt(0)]

  /** `{"CategoryName": name, "Products": []}`. */
  function NewCategory(name: string): Category {
    Category(name, [], map[])
  }

  /** The trader `add_trader` opens its dialog on, `n` being the current
      number of traders. */
  function DefaultTrader(n: nat): Trader {
    Trader(Some(n), Some("pr_npc_neutrals"), Some("Новый торговец"), Some("Торговец"),
      Some(ZeroVector), Some(ZeroVector), map["Clothes" := JArray([])])
  }

  /** The entry `add_trader_id` opens its dialog on, `n` being the current
      number of entries. */
  function DefaultIdEntry(n: nat): IdEntry {
    IdEntry(Some(n), Some([]), map["LicencesRequired" := JArray([]), "CurrenciesAccepted" := JArray([])])
  }

  /** The entities the editor creates keep their modelled keys out of `rest`. */
  lemma NewEntitiesWellFormed(name: string, n: nat)
    ensures CategoryWellFormed(NewCategory(name))
    ensures TraderWellFormed(DefaultTrader(n)) && EntryWellFormed(DefaultIdEntry(n))
    ensures WellFormed(EmptyDocument)
  {
  }
}
