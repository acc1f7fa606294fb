/** The editor window and the product window: the loaded document, the file
    it came from, its detected type, and every operation that changes the
    document, each followed by the automatic save. `disk` stands for the
    file system as far as the editor writes it. */
module Editor {
  import opened Wrappers
  import opened Text
  import opened Seqs
  import opened Document
  import opened Codec
  import opened Forms
  import opened Search

  /** The file system after `auto_save`: the document is written to the
      current file, and nothing is written when no file is set. */
  ghost function Saved(disk: map<string, Document>, file: string, doc: Document): map<string, Document> {
    if file != "" then disk[file := doc] else disk
  }

  /** The document with the products of category `ci` replaced. */
  function WithProducts(d: Document, ci: nat, ps: seq<string>): (r: Document)
    requires d.categories.Some? && ci < |d.categories.value|
    ensures r.categories.Some? && |r.categories.value| == |d.categories.value|
    ensures r.categories.value[ci].products == ps
    ensures r.categories.value[ci].name == d.categories.value[ci].name
    ensures r.categories.value[ci].rest == d.categories.value[ci].rest
    ensures forall k :: 0 <= k < |d.categories.value| && k != ci ==> r.categories.value[k] == d.categories.value[k]
    ensures r.traders == d.traders && r.ids == d.ids && r.rest == d.rest
  {
    var cats := d.categories.value;
    d.(categories := Some(cats[ci := cats[ci].(products := ps)]))
  }

  /** Putting back a category's own products changes nothing. */
  lemma WithOwnProducts(d: Document, ci: nat)
    requires d.categories.Some? && ci < |d.categories.value|
    ensures WithProducts(d, ci, d.categories.value[ci].products) == d
  {
    var cats := d.categories.value;
    assert cats[ci := cats[ci].(products := cats[ci].products)] == cats;
  }

  /** The first loop of `filter_categories` over one category's products:
      whether some line with at least six fields contains the query. */
  method SearchProducts(products: seq<string>, q: string) returns (found: bool)
    ensures found <==> exists k | 0 <= k < |products| :: ProductMatches(products[k], q)
  {
    found := false;
    var k := 0;
    while k < |products|
      invariant 0 <= k <= |products|
      invariant forall j :: 0 <= j < k ==> !ProductMatches(products[j], q)
    {
      var parts := Split(products[k], ',');
      if |parts| >= 6 {
        JoinSplit(products[k], ',');
        if Contains(Lower(Join(parts, ',')), q) {
          found := true;
          break;
        }
      }
      k := k + 1;
    }
  }

  /** The second loop of `filter_categories`: the position of the first
      matching line, whose fields the list then shows. */
  method FirstHit(products: seq<string>, q: string) returns (hit: Option<nat>)
    ensures hit == FirstProductHit(products, q)
  {
    hit := None;
    var k := 0;
    while k < |products|
      invariant 0 <= k <= |products|
      invariant forall j :: 0 <= j < k ==> !ProductMatches(products[j], q)
    {
      var parts := Split(products[k], ',');
      if |parts| >= 6 {
        JoinSplit(products[k], ',');
        if Contains(Lower(Join(parts, ',')), q) {
          hit := Some(k);
          FirstProductHitIs(products, q, k);
          return;
        }
      }
      k := k + 1;
    }
  }

  /** One pass of `filter_categories` over a category: `show_category`, and
      the product surfaced with it when `found_in_products`. */
  method ScanCategory(c: Category, q: string) returns (show: bool, hit: Option<nat>)
    ensures show == CategoryShown(c, q)
    ensures hit == NestedHit(c, q)
  {
    show := false;
    var found := false;
    if q == "" {
      show := true;
    } else {
      if Contains(Lower(c.name), q) {
        show := true;
      }
      if !show {
        found := SearchProducts(c.products, q);
        show := found;
      }
    }
    hit := None;
    if show && q != "" && found {
      hit := FirstHit(c.products, q);
    }
  }

  /** The category loop of `filter_ids`: whether the query occurs in some
      lower-cased category name. */
  method AnyCategoryMatches(categories: seq<string>, q: string) returns (found: bool)
    ensures found == SomeCategoryMatches(categories, q)
  {
    found := false;
    var k := 0;
    while k < |categories|
      invariant 0 <= k <= |categories|
      invariant forall j :: 0 <= j < k ==> !Contains(Lower(categories[j]), q)
    {
      if Contains(Lower(categories[k]), q) {
        found := true;
        break;
      }
      k := k + 1;
    }
  }

  class Editor {
    var doc: Document
    var currentFile: string
    var fileType: FileType
    ghost var disk: map<string, Document>

    /** Every change has been written through to the current file, and the
        file type is the one detected for the document. */
    ghost predicate Valid()
      reads this
    {
      && (currentFile != "" ==> currentFile in disk && disk[currentFile] == doc)
      && Agrees(fileType, doc)
    }

    /** A fresh editor holds an empty document, no file, and type "price";
        `files` is what the file system holds. */
    constructor(ghost files: map<string, Document>)
      ensures doc == EmptyDocument && currentFile == "" && fileType == Price && disk == files
      ensures Valid()
    {
      doc := EmptyDocument;
      currentFile := "";
      fileType := Price;
      disk := files;
    }

    /** `auto_save`: write the document to the current file, if there is one. */
    method AutoSave()
      modifies this`disk
      ensures disk == Saved(old(disk), currentFile, doc)
    {
      if currentFile != "" {
        disk := disk[currentFile := doc];
      }
    }

    /** `load_file`: `parsed` is the JSON read from `filename`, `None` when the
        file cannot be opened or parsed, in which case nothing changes. An
        empty name never opens. On success the type is detected and the
        document is written back to the file. */
    method LoadFile(filename: string, parsed: Option<Document>)
      requires Valid()
      modifies this
      ensures Valid()
      ensures filename == "" || parsed.None? ==>
        doc == old(doc) && currentFile == old(currentFile) && fileType == old(fileType) && disk == old(disk)
      ensures filename != "" && parsed.Some? ==>
        doc == parsed.value && currentFile == filename && fileType == Classify(doc)
        && disk == old(disk)[filename := doc]
    {
      if filename != "" && parsed.Some? {
        doc := parsed.value;
        currentFile := filename;
        fileType := Classify(doc);
        ClassifyAgrees(doc);
        AutoSave();
      }
    }

    /** `unload_file`: back to the empty document, no file and type "price";
        nothing is written. With nothing loaded it only says so. */
    method UnloadFile()
      requires Valid()
      modifies this`doc, this`currentFile, this`fileType
      ensures Valid()
      ensures old(doc) == EmptyDocument ==>
        doc == old(doc) && currentFile == old(currentFile) && fileType == old(fileType)
      ensures old(doc) != EmptyDocument ==> doc == EmptyDocument && currentFile == "" && fileType == Price
    {
      if doc != EmptyDocument {
        doc := EmptyDocument;
        currentFile := "";
        fileType := Price;
      }
    }

    /** `save_file`: write to the current file; without one, ask for a name
        as `save_file_as` does (`chosen`, empty when the dialog is cancelled). */
    method SaveFile(chosen: string)
      requires Valid()
      modifies this`currentFile, this`disk
      ensures Valid()
      ensures old(currentFile) != "" ==> currentFile == old(currentFile) && disk == old(disk)[currentFile := doc]
      ensures old(currentFile) == "" ==> currentFile == chosen && disk == Saved(old(disk), chosen, doc)
    {
      if currentFile != "" {
        disk := disk[currentFile := doc];
      } else {
        SaveFileAs(chosen);
      }
    }

    /** `save_file_as`: a chosen name becomes the current file and the
        document is written to it; an empty name (cancelled) changes nothing. */
    method SaveFileAs(chosen: string)
      requires Valid()
      modifies this`currentFile, this`disk
      ensures Valid()
      ensures chosen != "" ==> currentFile == chosen && disk == old(disk)[chosen := doc]
      ensures chosen == "" ==> currentFile == old(currentFile) && disk == old(disk)
    {
      if chosen != "" {
        currentFile := chosen;
        disk := disk[currentFile := doc];
      }
    }

    // -------------------------------------------------------------------------
    // The list filters

    /** `filter_categories`: the rows of the category list for the search
        box text `searchText`. */
    method FilterCategories(searchText: string) returns (rows: seq<CategoryRow>)
      ensures rows == if doc.categories.Some? then CategoryView(doc.categories.value, Query(searchText)) else []
    {
      var q := Strip(Lower(searchText));
      rows := [];
      if doc.categories.Some? {
        var cats := doc.categories.value;
        var i := 0;
        while i < |cats|
          invariant 0 <= i <= |cats|
          invariant rows == CategoryView(cats[..i], q)
        {
          var show, hit := ScanCategory(cats[i], q);
          if show {
            rows := rows + [CategoryRow(i, hit)];
          }
          assert cats[..i + 1][..i] == cats[..i];
          i := i + 1;
        }
        assert cats[..i] == cats;
      }
    }

    /** `filter_traders`: the rows of the trader list. */
    method FilterTraders(searchText: string) returns (rows: seq<TraderRow>)
      ensures rows == if doc.traders.Some? then TraderView(doc.traders.value, Query(searchText)) else []
    {
      var q := Strip(Lower(searchText));
      rows := [];
      if doc.traders.Some? {
        var traders := doc.traders.value;
        var i := 0;
        while i < |traders|
          invariant 0 <= i <= |traders|
          invariant rows == TraderView(traders[..i], q)
        {
          var t := traders[i];
          var name := ShownGivenName(t);
          var role := ShownRole(t);
          var id := ShownTraderId(t);
          var show := false;
          if q == "" {
            show := true;
          } else if Contains(Lower(name), q) {
            show := true;
          } else if Contains(Lower(role), q) {
            show := true;
          } else if Contains(IntToString(id), q) {
            show := true;
          }
          if show {
            var starred := q != "" && (Contains(Lower(name), q) || Contains(Lower(role), q) || Contains(IntToString(id), q));
            rows := rows + [TraderRow(i, starred)];
          }
          assert traders[..i + 1][..i] == traders[..i];
          i := i + 1;
        }
        assert traders[..i] == traders;
      }
    }

    /** `filter_ids`: the rows of the `IDs` list. */
    method FilterIds(searchText: string) returns (rows: seq<IdRow>)
      ensures rows == if doc.ids.Some? then IdView(doc.ids.value, Query(searchText)) else []
    {
      var q := Strip(Lower(searchText));
      rows := [];
      if doc.ids.Some? {
        var ids := doc.ids.value;
        var i := 0;
        while i < |ids|
          invariant 0 <= i <= |ids|
          invariant rows == IdView(ids[..i], q)
        {
          var e := ids[i];
          var idText := IntToString(ShownEntryId(e));
          var categories := EntryCategories(e);
          var show := false;
          if q == "" {
            show := true;
          } else if Contains(idText, q) {
            show := true;
          } else {
            show := AnyCategoryMatches(categories, q);
          }
          assert show == EntryShown(e, q);
          if show {
            var starred := q != "" && (Contains(idText, q) || SomeCategoryMatches(categories, q));
            rows := rows + [IdRow(i, starred)];
          }
          assert ids[..i + 1][..i] == ids[..i];
          i := i + 1;
        }
        assert ids[..i] == ids;
      }
    }

    // -------------------------------------------------------------------------
    // Adding

    /** `add_category`, dispatching on the file type: in a price file the name
        from the prompt (`ok` when confirmed) becomes a new empty category at
        the end; the other types open the trader or the `IDs` dialog, whose
        accepted result is given as `traderForm` or `idForm`. */
    method AddCategory(name: string, ok: bool, traderForm: Option<TraderForm>, idForm: Option<IdForm>,
                       parseFloat: string -> Option<real>)
      requires Valid()
      modifies this`doc, this`disk
      ensures Valid()
      ensures fileType == Price && ok && name != "" ==>
        doc == old(doc).(categories := Some(CategoriesOf(old(doc)) + [NewCategory(name)]))
        && disk == Saved(old(disk), currentFile, doc)
      ensures fileType == Price && !(ok && name != "") ==> doc == old(doc) && disk == old(disk)
      ensures fileType == General && traderForm.Some? ==>
        var n := |TradersOf(old(doc))|;
        doc == old(doc).(traders := Some(TradersOf(old(doc)) + [GetTraderData(DefaultTrader(n), traderForm.value, parseFloat)]))
        && disk == Saved(old(disk), currentFile, doc)
      ensures fileType == General && traderForm.None? ==> doc == old(doc) && disk == old(disk)
      ensures (fileType == Ids || fileType == Unknown) && idForm.Some? ==>
        var n := |IdsOf(old(doc))|;
        doc == old(doc).(ids := Some(IdsOf(old(doc)) + [GetTraderIdData(DefaultIdEntry(n), idForm.value)]))
        && disk == Saved(old(disk), currentFile, doc)
      ensures (fileType == Ids || fileType == Unknown) && idForm.None? ==> doc == old(doc) && disk == old(disk)
    {
      if fileType == Price {
        if ok && name != "" {
          var cats := CategoriesOf(doc);
          AgreesWithCategories(doc, cats + [NewCategory(name)]);
          doc := doc.(categories := Some(cats + [NewCategory(name)]));
          AutoSave();
        }
      } else if fileType == General {
        AddTrader(traderForm, parseFloat);
      } else {
        AddTraderId(idForm);
      }
    }

    /** `add_trader`: the trader dialog opens on a default trader whose Id is
        the current number of traders; when accepted (`form` is the dialog's
        final content) the result is appended, creating the list if absent.
        It is reached from `add_category` in a "general" file only. */
    method AddTrader(form: Option<TraderForm>, parseFloat: string -> Option<real>)
      requires Valid() && fileType == General
      modifies this`doc, this`disk
      ensures Valid()
      ensures form.None? ==> doc == old(doc) && disk == old(disk)
      ensures form.Some? ==>
        var n := |TradersOf(old(doc))|;
        doc == old(doc).(traders := Some(TradersOf(old(doc)) + [GetTraderData(DefaultTrader(n), form.value, parseFloat)]))
        && disk == Saved(old(disk), currentFile, doc)
    {
      var traders := TradersOf(doc);
      var initial := DefaultTrader(|traders|);
      if form.Some? {
        var updated := GetTraderData(initial, form.value, parseFloat);
        AgreesByKeysOnly(fileType, doc, doc.(traders := Some(traders + [updated])));
        doc := doc.(traders := Some(traders + [updated]));
        AutoSave();
      }
    }

    /** `add_trader_id`: likewise for an `IDs` entry with Id the current
        number of entries. It is reached from `add_category` in an "ids" or
        "unknown" file; in the latter it creates the `IDs` list. */
    method AddTraderId(form: Option<IdForm>)
      requires Valid() && (fileType == Ids || fileType == Unknown)
      modifies this`doc, this`disk
      ensures Valid()
      ensures form.None? ==> doc == old(doc) && disk == old(disk)
      ensures form.Some? ==>
        var n := |IdsOf(old(doc))|;
        doc == old(doc).(ids := Some(IdsOf(old(doc)) + [GetTraderIdData(DefaultIdEntry(n), form.value)]))
        && disk == Saved(old(disk), currentFile, doc)
    {
      var ids := IdsOf(doc);
      var initial := DefaultIdEntry(|ids|);
      if form.Some? {
        var updated := GetTraderIdData(initial, form.value);
        AgreesWithIds(fileType, doc, ids + [updated]);
        doc := doc.(ids := Some(ids + [updated]));
        AutoSave();
      }
    }

    // -------------------------------------------------------------------------
    // Deleting

    /** `delete_category`: `selected` is the first-column caption of the
        selected row (`None` when no row is selected), `confirmed` the answer
        to the confirmation. A trailing " ★" is removed and the first entity
        whose key equals the rest is deleted: the category name in a price
        file, `GivenName` (empty when absent) in a general file, and otherwise
        the Id parsed from "ID: X"; a caption that names no Id changes
        nothing. When the collection to search is missing, indexing it raises
        `KeyError`: `raised` reports that escape, and nothing changes. */
    method DeleteCategory(selected: Option<string>, confirmed: bool) returns (raised: bool)
      requires Valid()
      modifies this`doc, this`disk
      ensures Valid()
      ensures raised <==> (selected.Some? && confirmed
        && (if fileType == Price then old(doc).categories.None?
            else if fileType == General then old(doc).traders.None?
            else LabelId(StripStar(selected.value)).Some? && old(doc).ids.None?))
      ensures raised ==> doc == old(doc) && disk == old(disk)
      ensures selected.None? || !confirmed ==> doc == old(doc) && disk == old(disk)
      ensures selected.Some? && confirmed && fileType == Price ==>
        var key := StripStar(selected.value);
        match old(doc).categories
        case None => doc == old(doc) && disk == old(disk)
        case Some(cats) =>
          doc == old(doc).(categories := Some(DeleteFirst(cats, CategoryNames(cats), key)))
          && disk == Saved(old(disk), currentFile, doc)
      ensures selected.Some? && confirmed && fileType == General ==>
        var key := StripStar(selected.value);
        match old(doc).traders
        case None => doc == old(doc) && disk == old(disk)
        case Some(traders) =>
          doc == old(doc).(traders := Some(DeleteFirst(traders, GivenNameKeys(traders), key)))
          && disk == Saved(old(disk), currentFile, doc)
      ensures selected.Some? && confirmed && (fileType == Ids || fileType == Unknown) ==>
        var id := LabelId(StripStar(selected.value));
        if id.None? || old(doc).ids.None? then doc == old(doc) && disk == old(disk)
        else
          var ids := old(doc).ids.value;
          doc == old(doc).(ids := Some(DeleteFirst(ids, EntryIds(ids), id)))
          && disk == Saved(old(disk), currentFile, doc)
    {
      raised := false;
      if selected.None? || !confirmed {
        return;
      }
      var caption := StripStar(selected.value);
      if fileType == Price {
        if doc.categories.None? {
          raised := true;
        } else {
          var cats := doc.categories.value;
          var i := FindFirst(CategoryNames(cats), caption);
          if i.Some? {
            AgreesWithCategories(doc, cats[..i.value] + cats[i.value + 1..]);
            doc := doc.(categories := Some(cats[..i.value] + cats[i.value + 1..]));
          }
          AutoSave();
        }
      } else if fileType == General {
        if doc.traders.None? {
          raised := true;
        } else {
          var traders := doc.traders.value;
          var i := FindFirst(GivenNameKeys(traders), caption);
          if i.Some? {
            AgreesByKeysOnly(fileType, doc, doc.(traders := Some(traders[..i.value] + traders[i.value + 1..])));
            doc := doc.(traders := Some(traders[..i.value] + traders[i.value + 1..]));
          }
          AutoSave();
        }
      } else {
        var id := LabelId(caption);
        if id.Some? && doc.ids.None? {
          raised := true;
        } else if id.Some? {
          var ids := doc.ids.value;
          var i := FindFirst(EntryIds(ids), id);
          if i.Some? {
            AgreesByKeysOnly(fileType, doc, doc.(ids := Some(ids[..i.value] + ids[i.value + 1..])));
            doc := doc.(ids := Some(ids[..i.value] + ids[i.value + 1..]));
          }
          AutoSave();
        }
      }
    }

    // -------------------------------------------------------------------------
    // Editing in place

    /** `edit_trader_dialog`: `form` is the accepted dialog's content (`None`
        when cancelled); the trader at `index` is replaced by the dialog's
        copy of it. */
    method EditTraderDialog(index: nat, form: Option<TraderForm>, parseFloat: string -> Option<real>)
      requires Valid() && doc.traders.Some? && index < |doc.traders.value|
      modifies this`doc, this`disk
      ensures Valid()
      ensures form.None? ==> doc == old(doc) && disk == old(disk)
      ensures form.Some? ==>
        var traders := old(doc).traders.value;
        doc == old(doc).(traders := Some(traders[index := GetTraderData(traders[index], form.value, parseFloat)]))
        && disk == Saved(old(disk), currentFile, doc)
    {
      if form.Some? {
        var traders := doc.traders.value;
        var updated := GetTraderData(traders[index], form.value, parseFloat);
        AgreesByKeysOnly(fileType, doc, doc.(traders := Some(traders[index := updated])));
        doc := doc.(traders := Some(traders[index := updated]));
        AutoSave();
      }
    }

    /** `edit_trader_id_dialog`: likewise for the `IDs` entry at `index`. */
    method EditTraderIdDialog(index: nat, form: Option<IdForm>)
      requires Valid() && doc.ids.Some? && index < |doc.ids.value|
      modifies this`doc, this`disk
      ensures Valid()
      ensures form.None? ==> doc == old(doc) && disk == old(disk)
      ensures form.Some? ==>
        var ids := old(doc).ids.value;
        doc == old(doc).(ids := Some(ids[index := GetTraderIdData(ids[index], form.value)]))
        && disk == Saved(old(disk), currentFile, doc)
    {
      if form.Some? {
        var ids := doc.ids.value;
        var updated := GetTraderIdData(ids[index], form.value);
        AgreesByKeysOnly(fileType, doc, doc.(ids := Some(ids[index := updated])));
        doc := doc.(ids := Some(ids[index := updated]));
        AutoSave();
      }
    }

    /** `edit_product_dialog`, opened from a search hit: the product at
        `productIndex` of category `categoryIndex` is replaced by the edit
        dialog's fields joined (`form`, `None` when cancelled). */
    method EditProductDialog(categoryIndex: nat, productIndex: nat, form: Option<Product>)
      requires Valid() && doc.categories.Some? && categoryIndex < |doc.categories.value|
      requires productIndex < |doc.categories.value[categoryIndex].products|
      modifies this`doc, this`disk
      ensures Valid()
      ensures form.None? ==> doc == old(doc) && disk == old(disk)
      ensures form.Some? ==>
        var ps := old(doc).categories.value[categoryIndex].products;
        doc == WithProducts(old(doc), categoryIndex, ps[productIndex := EditProductString(form.value)])
        && disk == Saved(old(disk), currentFile, doc)
    {
      if form.Some? {
        var ps := doc.categories.value[categoryIndex].products;
        AgreesByKeysOnly(fileType, doc, WithProducts(doc, categoryIndex, ps[productIndex := EditProductString(form.value)]));
        doc := WithProducts(doc, categoryIndex, ps[productIndex := EditProductString(form.value)]);
        AutoSave();
      }
    }
  }

  /** The modal window over one category's products. It works on the
      editor's own document, so its changes are the editor's, and it asks the
      editor to save after each one. */
  class ProductWindow {
    const parent: Editor
    const categoryIndex: nat
    const categoryName: string
    /** The search text, lower-cased (`search_text.lower()`). */
    const searchText: string

    /** The window's category exists. */
    ghost predicate Open()
      reads parent
    {
      parent.doc.categories.Some? && categoryIndex < |parent.doc.categories.value|
    }

    function Products(): seq<string>
      reads parent
      requires Open()
    {
      parent.doc.categories.value[categoryIndex].products
    }

    constructor(parent: Editor, categoryIndex: nat, categoryName: string, searchText: string)
      requires parent.doc.categories.Some? && categoryIndex < |parent.doc.categories.value|
      ensures this.parent == parent && this.categoryIndex == categoryIndex
      ensures this.categoryName == categoryName && this.searchText == Lower(searchText)
      ensures Open()
    {
      this.parent := parent;
      this.categoryIndex := categoryIndex;
      this.categoryName := categoryName;
      this.searchText := Lower(searchText);
    }

    /** `load_products`: the rows of the product table, and the row selected
        automatically, which is the first one whenever the search is active. */
    method LoadProducts() returns (rows: seq<ProductRow>, selected: Option<nat>)
      requires Open()
      ensures rows == ProductView(Products(), searchText)
      ensures selected == if searchText != "" && |rows| > 0 then Some(0) else None
    {
      var products := Products();
      rows := [];
      selected := None;
      var i := 0;
      while i < |products|
        invariant 0 <= i <= |products|
        invariant rows == ProductView(products[..i], searchText)
        invariant selected == if searchText != "" && |rows| > 0 then Some(0) else None
      {
        var parts := Split(products[i], ',');
        if |parts| >= 6 {
          var fields := FromFields(parts);
          var show := true;
          var isFound := false;
          if searchText != "" {
            if Contains(Lower(Encode(fields)), searchText) {
              isFound := true;
            } else {
              show := false;
            }
          }
          if show {
            if isFound && selected.None? {
              selected := Some(|rows|);
            }
            rows := rows + [ProductRow(i, isFound)];
          }
        }
        assert products[..i + 1][..i] == products[..i];
        assert ProductView(products[..i + 1], searchText) == ProductView(products[..i], searchText)
          + (if WindowShows(products[i], searchText) then [ProductRow(i, searchText != "")] else []);
        i := i + 1;
      }
      assert products[..i] == products;
    }

    /** `edit_product`: `selected` is the classname in the selected row
        (`None` when none is), `form` the accepted edit dialog's fields. The
        first line whose text before the first comma is that classname is
        replaced. */
    method EditProduct(selected: Option<string>, form: Option<Product>)
      requires parent.Valid() && Open()
      modifies parent`doc, parent`disk
      ensures parent.Valid() && Open()
      ensures selected.None? || form.None? ==> parent.doc == old(parent.doc) && parent.disk == old(parent.disk)
      ensures selected.Some? && form.Some? ==>
        var ps := old(Products());
        match IndexOf(ClassnameKeys(ps), selected.value)
        case None => parent.doc == old(parent.doc) && parent.disk == old(parent.disk)
        case Some(i) =>
          parent.doc == WithProducts(old(parent.doc), categoryIndex, ps[i := EditProductString(form.value)])
          && parent.disk == Saved(old(parent.disk), parent.currentFile, parent.doc)
    {
      if selected.None? {
        return;
      }
      var ps := Products();
      var i := FindFirst(ClassnameKeys(ps), selected.value);
      if i.Some? && form.Some? {
        AgreesByKeysOnly(parent.fileType, parent.doc, WithProducts(parent.doc, categoryIndex, ps[i.value := EditProductString(form.value)]));
        parent.doc := WithProducts(parent.doc, categoryIndex, ps[i.value := EditProductString(form.value)]);
        parent.AutoSave();
      }
    }

    /** `add_product`: `form` is the add dialog's content when the user
        pressed add (`None` when cancelled); the dialog only closes on a form
        every field of which is non-empty once stripped, and the stripped
        fields joined become the category's last line. */
    method AddProduct(form: Option<Product>)
      requires parent.Valid() && Open()
      modifies parent`doc, parent`disk
      ensures parent.Valid() && Open()
      ensures form.Some? && ValidateAndAccept(form.value) ==>
        parent.doc == WithProducts(old(parent.doc), categoryIndex, old(Products()) + [AddProductString(form.value)])
        && parent.disk == Saved(old(parent.disk), parent.currentFile, parent.doc)
      ensures !(form.Some? && ValidateAndAccept(form.value)) ==>
        parent.doc == old(parent.doc) && parent.disk == old(parent.disk)
    {
      if form.Some? && ValidateAndAccept(form.value) {
        var ps := Products();
        AgreesByKeysOnly(parent.fileType, parent.doc, WithProducts(parent.doc, categoryIndex, ps + [AddProductString(form.value)]));
        parent.doc := WithProducts(parent.doc, categoryIndex, ps + [AddProductString(form.value)]);
        parent.AutoSave();
      }
    }

    /** `delete_product`: the first line whose classname key equals the
        selected row's classname is removed, once confirmed. */
    method DeleteProduct(selected: Option<string>, confirmed: bool)
      requires parent.Valid() && Open()
      modifies parent`doc, parent`disk
      ensures parent.Valid() && Open()
      ensures selected.None? || !confirmed ==> parent.doc == old(parent.doc) && parent.disk == old(parent.disk)
      ensures selected.Some? && confirmed ==>
        var ps := old(Products());
        parent.doc == WithProducts(old(parent.doc), categoryIndex, DeleteFirst(ps, ClassnameKeys(ps), selected.value))
        && parent.disk == Saved(old(parent.disk), parent.currentFile, parent.doc)
    {
      if selected.None? || !confirmed {
        return;
      }
      var ps := Products();
      var i := FindFirst(ClassnameKeys(ps), selected.value);
      if i.Some? {
        AgreesByKeysOnly(parent.fileType, parent.doc, WithProducts(parent.doc, categoryIndex, ps[..i.value] + ps[i.value + 1..]));
        parent.doc := WithProducts(parent.doc, categoryIndex, ps[..i.value] + ps[i.value + 1..]);
      } else {
        WithOwnProducts(parent.doc, categoryIndex);
      }
      parent.AutoSave();
    }
  }
}
