/** What the three list filters and the product window show for a query: the
    specification the editor's filter loops are proved against. A filter keeps
    the entities that match, in document order, and tells which of them matched
    through a nested product rather than through their own caption. */
module Search {
  import opened Wrappers
  import opened Text
  import opened Document
  import opened Codec
  import opened Seqs

  /** The query as the filters use it: `search_entry.text().lower().strip()`. */
  function Query(text: string): string {
    Strip(Lower(text))
  }

  /** The product window's search text: the double-click handler strips the
      entry's text and the window lowers it. It is the filters' query. */
  lemma WindowQueryIsQuery(text: string)
    ensures Lower(Strip(text)) == Query(text)
  {
    LowerStrip(text);
  }

  predicate IsPrefix(p: string, s: string) {
    |p| <= |s| && s[..|p|] == p
  }

  /** Typing further characters only lengthens the query. */
  lemma QueryExtends(text: string, more: string)
    ensures IsPrefix(Query(text), Query(text + more))
  {
    LowerConcat(text, more);
    StripPrefix(Lower(text), Lower(more));
  }

  // ---------------------------------------------------------------------------
  // The star marking a search hit

  /** Appended to the caption of an entity found by a non-empty query. */
  const Star: string := " ★"

  predicate EndsWithStar(caption: string) {
    |caption| >= 2 && caption[|caption| - 2..] == Star
  }

  /** `if item_name.endswith(" ★"): item_name = item_name[:-2]`, done before a
      caption is looked up. */
  function StripStar(caption: string): (r: string)
    ensures EndsWithStar(caption) ==> r + Star == caption
    ensures !EndsWithStar(caption) ==> r == caption
  {
    if EndsWithStar(caption) then caption[..|caption| - 2] else caption
  }

  lemma StripStarOfStarred(name: string)
    ensures StripStar(name + Star) == name
  {
    assert (name + Star)[|name + Star| - 2..] == Star;
    assert (name + Star)[..|name|] == name;
  }

  // ---------------------------------------------------------------------------
  // filter_categories

  predicate NameMatches(c: Category, q: string) {
    Contains(Lower(c.name), q)
  }

  /** A product line takes part in a search only when it has at least six
      fields; it matches when its lower-cased text contains the query. */
  predicate ProductMatches(p: string, q: string) {
    |Split(p, ',')| >= 6 && Contains(Lower(p), q)
  }

  /** A category is listed for an empty query, when its lower-cased name
      contains the query, or when one of its well-formed products does. */
  predicate CategoryShown(c: Category, q: string) {
    q == "" || NameMatches(c, q) || exists k | 0 <= k < |c.products| :: ProductMatches(c.products[k], q)
  }

  /** The first matching product, in list order. */
  function FirstProductHit(products: seq<string>, q: string): (r: Option<nat>)
    ensures r.Some? ==> (r.value < |products| && ProductMatches(products[r.value], q)
      && forall j :: 0 <= j < r.value ==> !ProductMatches(products[j], q))
    ensures r.None? ==> forall j :: 0 <= j < |products| ==> !ProductMatches(products[j], q)
    decreases |products|
  {
    if |products| == 0 then None
    else if ProductMatches(products[0], q) then Some(0)
    else match FirstProductHit(products[1..], q)
      case None => None
      case Some(k) => Some(k + 1)
  }

  /** A matching position preceded only by non-matching ones is the first hit. */
  lemma FirstProductHitIs(products: seq<string>, q: string, k: nat)
    requires k < |products| && ProductMatches(products[k], q)
    requires forall j :: 0 <= j < k ==> !ProductMatches(products[j], q)
    ensures FirstProductHit(products, q) == Some(k)
  {
    var r := FirstProductHit(products, q);
    assert r.Some?;
    assert !(r.value < k) && !(k < r.value);
  }

  /** The product surfaced next to a category that the query found only
      through its products (`found_in_products`). */
  function NestedHit(c: Category, q: string): Option<nat> {
    if q == "" || NameMatches(c, q) then None else FirstProductHit(c.products, q)
  }

  /** One line of the category list: the category's position and, for a
      nested match, the position of the product displayed with it. */
  datatype CategoryRow = CategoryRow(index: nat, hit: Option<nat>)

  /** The category list for query `q`. */
  function CategoryView(cats: seq<Category>, q: string): seq<CategoryRow>
    decreases |cats|
  {
    if |cats| == 0 then []
    else
      var n := |cats| - 1;
      CategoryView(cats[..n], q) + (if CategoryShown(cats[n], q) then [CategoryRow(n, NestedHit(cats[n], q))] else [])
  }

  /** Every listed category passes the filter and carries its nested hit; the
      list follows document order and names no category twice. */
  lemma {:induction false} CategoryViewSound(cats: seq<Category>, q: string)
    ensures (forall j :: 0 <= j < |CategoryView(cats, q)| ==>
            (CategoryView(cats, q)[j].index < |cats| && CategoryShown(cats[CategoryView(cats, q)[j].index], q) && CategoryView(cats, q)[j].hit == NestedHit(cats[CategoryView(cats, q)[j].index], q)))
    ensures (forall j, k :: 0 <= j < k < |CategoryView(cats, q)| ==> CategoryView(cats, q)[j].index < CategoryView(cats, q)[k].index)
    decreases |cats|
  {
    if |cats| > 0 {
      var n := |cats| - 1;
      var pre := CategoryView(cats[..n], q);
      CategoryViewSound(cats[..n], q);
      var rows := CategoryView(cats, q);
      assert rows[..|pre|] == pre;
      forall j | 0 <= j < |rows|
        ensures rows[j].index < |cats| && CategoryShown(cats[rows[j].index], q) && rows[j].hit == NestedHit(cats[rows[j].index], q)
      {
        if j < |pre| {
          assert rows[j] == pre[j];
          assert cats[..n][pre[j].index] == cats[pre[j].index];
        }
      }
      forall j, k | 0 <= j < k < |rows| ensures rows[j].index < rows[k].index {
        assert rows[j] == pre[j];
        if k < |pre| {
          assert rows[k] == pre[k];
        }
      }
    }
  }

  /** Every category that passes the filter is listed. */
  lemma {:induction false} CategoryViewComplete(cats: seq<Category>, q: string, i: nat)
    requires i < |cats| && CategoryShown(cats[i], q)
    ensures exists j :: 0 <= j < |CategoryView(cats, q)| && CategoryView(cats, q)[j].index == i
    decreases |cats|
  {
    var n := |cats| - 1;
    var rows := CategoryView(cats, q);
    if i == n {
      assert rows[|rows| - 1].index == i;
    } else {
      assert cats[..n][i] == cats[i];
      CategoryViewComplete(cats[..n], q, i);
      var j :| 0 <= j < |CategoryView(cats[..n], q)| && CategoryView(cats[..n], q)[j].index == i;
      assert rows[j] == CategoryView(cats[..n], q)[j];
    }
  }

  /** For a listed category, a product is surfaced exactly when the query is
      non-empty and the name did not match, and it is then the first product
      in list order that matches. */
  lemma NestedHitSpec(c: Category, q: string)
    requires CategoryShown(c, q)
    ensures NestedHit(c, q).Some? <==> q != "" && !NameMatches(c, q)
    ensures NestedHit(c, q).Some? ==> var k := NestedHit(c, q).value;
      k < |c.products| && ProductMatches(c.products[k], q)
      && forall j :: 0 <= j < k ==> !ProductMatches(c.products[j], q)
  {
    if q != "" && !NameMatches(c, q) {
      var k :| 0 <= k < |c.products| && ProductMatches(c.products[k], q);
      assert FirstProductHit(c.products, q).Some?;
    }
  }

  /** A longer query never lists a category a shorter one hid. */
  lemma CategoryShownNarrows(c: Category, q1: string, q2: string)
    requires IsPrefix(q1, q2) && CategoryShown(c, q2)
    ensures CategoryShown(c, q1)
  {
    if q1 != "" {
      if NameMatches(c, q2) {
        ContainsPrefix(Lower(c.name), q2, q1);
      } else {
        var k :| 0 <= k < |c.products| && ProductMatches(c.products[k], q2);
        ContainsPrefix(Lower(c.products[k]), q2, q1);
        assert ProductMatches(c.products[k], q1);
      }
    }
  }

  /** Some row of `rows` lists entity `i`. */
  predicate ListsCategoryRow(rows: seq<CategoryRow>, i: nat) {
    exists k :: 0 <= k < |rows| && rows[k].index == i
  }

  /** Search monotonicity: what is listed after typing more characters was
      already listed before. */
  lemma CategoryViewNarrows(cats: seq<Category>, q1: string, q2: string)
    requires IsPrefix(q1, q2)
    ensures forall j :: 0 <= j < |CategoryView(cats, q2)| ==> ListsCategoryRow(CategoryView(cats, q1), CategoryView(cats, q2)[j].index)
  {
    CategoryViewSound(cats, q2);
    forall j | 0 <= j < |CategoryView(cats, q2)|
      ensures ListsCategoryRow(CategoryView(cats, q1), CategoryView(cats, q2)[j].index)
    {
      var i := CategoryView(cats, q2)[j].index;
      CategoryShownNarrows(cats[i], q1, q2);
      CategoryViewComplete(cats, q1, i);
    }
  }

  /** The text in the first column: the name, starred for a nested match. */
  function CategoryLabel(c: Category, row: CategoryRow): string {
    if row.hit.Some? then c.name + Star else c.name
  }

  /** The text in the second column: the product count, or the surfaced
      product's fields 0, 4 and 5 (classname, buy and sell price). */
  function CategoryInfo(c: Category, row: CategoryRow): string
    requires row.hit.Some? ==> row.hit.value < |c.products| && |Split(c.products[row.hit.value], ',')| >= 6
  {
    match row.hit
    case None => "Товаров: " + IntToString(|c.products|)
    case Some(k) =>
      var parts := Split(c.products[k], ',');
      parts[0] + " | Покупка:" + parts[4] + " | Продажа:" + parts[5]
  }

  /** Every row of the category list can be described: a category listed
      for itself shows its product count, and one found through its products
      shows the classname, buy and sell price of its first matching product. */
  lemma ListedCategoryInfo(cats: seq<Category>, q: string, j: nat)
    requires j < |CategoryView(cats, q)|
    ensures var row := CategoryView(cats, q)[j];
      row.index < |cats| && var c := cats[row.index];
      (row.hit.Some? ==> row.hit.value < |c.products| && |Split(c.products[row.hit.value], ',')| >= 6)
      && (row.hit.None? <==> q == "" || NameMatches(c, q))
      && (row.hit.None? ==> CategoryInfo(c, row) == "Товаров: " + IntToString(|c.products|))
      && (row.hit.Some? ==> row.hit == FirstProductHit(c.products, q))
      && (row.hit.Some? ==> var parts := Split(c.products[row.hit.value], ',');
            CategoryInfo(c, row) == parts[0] + " | Покупка:" + parts[4] + " | Продажа:" + parts[5])
  {
    CategoryViewSound(cats, q);
    var row := CategoryView(cats, q)[j];
    NestedHitSpec(cats[row.index], q);
  }

  /** Stripping the star from a listed caption gives back the category name,
      except for an unstarred name that itself ends in " ★". */
  lemma CategoryLabelKey(c: Category, row: CategoryRow)
    ensures row.hit.Some? || !EndsWithStar(c.name) ==> StripStar(CategoryLabel(c, row)) == c.name
    ensures row.hit.None? && EndsWithStar(c.name) ==> StripStar(CategoryLabel(c, row)) != c.name
  {
    if row.hit.Some? {
      StripStarOfStarred(c.name);
    }
  }

  // ---------------------------------------------------------------------------
  // filter_traders

  /** A trader is listed for an empty query, or when the query occurs in its
      lower-cased given name, its lower-cased role or the decimal text of its
      Id (missing keys read as "Неизвестный", "Торговец" and -1). */
  predicate TraderShown(t: Trader, q: string) {
    q == "" || Contains(Lower(ShownGivenName(t)), q) || Contains(Lower(ShownRole(t)), q)
      || Contains(IntToString(ShownTraderId(t)), q)
  }

  /** One line of the trader list; `starred` marks a hit of a non-empty query. */
  datatype TraderRow = TraderRow(index: nat, starred: bool)

  function TraderView(traders: seq<Trader>, q: string): seq<TraderRow>
    decreases |traders|
  {
    if |traders| == 0 then []
    else
      var n := |traders| - 1;
      TraderView(traders[..n], q) + (if TraderShown(traders[n], q) then [TraderRow(n, q != "")] else [])
  }

  lemma {:induction false} TraderViewSound(traders: seq<Trader>, q: string)
    ensures (forall j :: 0 <= j < |TraderView(traders, q)| ==>
            (TraderView(traders, q)[j].index < |traders| && TraderShown(traders[TraderView(traders, q)[j].index], q) && TraderView(traders, q)[j].starred == (q != "")))
    ensures (forall j, k :: 0 <= j < k < |TraderView(traders, q)| ==> TraderView(traders, q)[j].index < TraderView(traders, q)[k].index)
    decreases |traders|
  {
    if |traders| > 0 {
      var n := |traders| - 1;
      var pre := TraderView(traders[..n], q);
      TraderViewSound(traders[..n], q);
      var rows := TraderView(traders, q);
      var tail := if TraderShown(traders[n], q) then [TraderRow(n, q != "")] else [];
      assert rows == pre + tail;
      forall j | 0 <= j < |rows|
        ensures rows[j].index < |traders| && TraderShown(traders[rows[j].index], q) && rows[j].starred == (q != "")
      {
        if j < |pre| {
          assert rows[j] == pre[j];
          assert traders[..n][pre[j].index] == traders[pre[j].index];
        } else {
          assert rows[j] == tail[0] == TraderRow(n, q != "");
        }
      }
      forall j, k | 0 <= j < k < |rows| ensures rows[j].index < rows[k].index {
        assert rows[j] == pre[j];
        if k < |pre| {
          assert rows[k] == pre[k];
        }
      }
    }
  }

  lemma {:induction false} TraderViewComplete(traders: seq<Trader>, q: string, i: nat)
    requires i < |traders| && TraderShown(traders[i], q)
    ensures exists j :: 0 <= j < |TraderView(traders, q)| && TraderView(traders, q)[j].index == i
    decreases |traders|
  {
    var n := |traders| - 1;
    var rows := TraderView(traders, q);
    if i == n {
      assert rows[|rows| - 1].index == i;
    } else {
      assert traders[..n][i] == traders[i];
      TraderViewComplete(traders[..n], q, i);
      var j :| 0 <= j < |TraderView(traders[..n], q)| && TraderView(traders[..n], q)[j].index == i;
      assert rows[j] == TraderView(traders[..n], q)[j];
    }
  }

  lemma TraderShownNarrows(t: Trader, q1: string, q2: string)
    requires IsPrefix(q1, q2) && TraderShown(t, q2)
    ensures TraderShown(t, q1)
  {
    if q1 != "" {
      if Contains(Lower(ShownGivenName(t)), q2) {
        ContainsPrefix(Lower(ShownGivenName(t)), q2, q1);
      } else if Contains(Lower(ShownRole(t)), q2) {
        ContainsPrefix(Lower(ShownRole(t)), q2, q1);
      } else {
        ContainsPrefix(IntToString(ShownTraderId(t)), q2, q1);
      }
    }
  }

  /** Some row of `rows` lists entity `i`. */
  predicate ListsTraderRow(rows: seq<TraderRow>, i: nat) {
    exists k :: 0 <= k < |rows| && rows[k].index == i
  }

  lemma TraderViewNarrows(traders: seq<Trader>, q1: string, q2: string)
    requires IsPrefix(q1, q2)
    ensures forall j :: 0 <= j < |TraderView(traders, q2)| ==> ListsTraderRow(TraderView(traders, q1), TraderView(traders, q2)[j].index)
  {
    TraderViewSound(traders, q2);
    forall j | 0 <= j < |TraderView(traders, q2)|
      ensures ListsTraderRow(TraderView(traders, q1), TraderView(traders, q2)[j].index)
    {
      var i := TraderView(traders, q2)[j].index;
      TraderShownNarrows(traders[i], q1, q2);
      TraderViewComplete(traders, q1, i);
    }
  }

  function TraderLabel(t: Trader, row: TraderRow): string {
    ShownGivenName(t) + (if row.starred then Star else "")
  }

  /** Stripping the star from a listed caption gives the key the trader is
      deleted by, provided it has a `GivenName` and, when unstarred, the name
      does not itself end in " ★". */
  lemma TraderLabelKey(t: Trader, row: TraderRow)
    requires t.givenName.Some?
    ensures row.starred || !EndsWithStar(GivenNameKey(t)) ==> StripStar(TraderLabel(t, row)) == GivenNameKey(t)
  {
    if row.starred {
      StripStarOfStarred(ShownGivenName(t));
    } else {
      assert TraderLabel(t, row) == ShownGivenName(t);
    }
  }

  // ---------------------------------------------------------------------------
  // filter_ids

  predicate SomeCategoryMatches(cats: seq<string>, q: string) {
    exists k | 0 <= k < |cats| :: Contains(Lower(cats[k]), q)
  }

  /** An `IDs` entry is listed for an empty query, when the query occurs in
      the decimal text of its Id (-1 when missing), or in one of its
      lower-cased category names. */
  predicate EntryShown(e: IdEntry, q: string) {
    q == "" || Contains(IntToString(ShownEntryId(e)), q) || SomeCategoryMatches(EntryCategories(e), q)
  }

  datatype IdRow = IdRow(index: nat, starred: bool)

  function IdView(ids: seq<IdEntry>, q: string): seq<IdRow>
    decreases |ids|
  {
    if |ids| == 0 then []
    else
      var n := |ids| - 1;
      IdView(ids[..n], q) + (if EntryShown(ids[n], q) then [IdRow(n, q != "")] else [])
  }

  lemma {:induction false} IdViewSound(ids: seq<IdEntry>, q: string)
    ensures (forall j :: 0 <= j < |IdView(ids, q)| ==>
            (IdView(ids, q)[j].index < |ids| && EntryShown(ids[IdView(ids, q)[j].index], q) && IdView(ids, q)[j].starred == (q != "")))
    ensures (forall j, k :: 0 <= j < k < |IdView(ids, q)| ==> IdView(ids, q)[j].index < IdView(ids, q)[k].index)
    decreases |ids|
  {
    if |ids| > 0 {
      var n := |ids| - 1;
      var pre := IdView(ids[..n], q);
      IdViewSound(ids[..n], q);
      var rows := IdView(ids, q);
      var tail := if EntryShown(ids[n], q) then [IdRow(n, q != "")] else [];
      assert rows == pre + tail;
      forall j | 0 <= j < |rows|
        ensures rows[j].index < |ids| && EntryShown(ids[rows[j].index], q) && rows[j].starred == (q != "")
      {
        if j < |pre| {
          assert rows[j] == pre[j];
          assert ids[..n][pre[j].index] == ids[pre[j].index];
        } else {
          assert rows[j] == tail[0] == IdRow(n, q != "");
        }
      }
      forall j, k | 0 <= j < k < |rows| ensures rows[j].index < rows[k].index {
        assert rows[j] == pre[j];
        if k < |pre| {
          assert rows[k] == pre[k];
        }
      }
    }
  }

  lemma {:induction false} IdViewComplete(ids: seq<IdEntry>, q: string, i: nat)
    requires i < |ids| && EntryShown(ids[i], q)
    ensures exists j :: 0 <= j < |IdView(ids, q)| && IdView(ids, q)[j].index == i
    decreases |ids|
  {
    var n := |ids| - 1;
    var rows := IdView(ids, q);
    if i == n {
      assert rows[|rows| - 1].index == i;
    } else {
      assert ids[..n][i] == ids[i];
      IdViewComplete(ids[..n], q, i);
      var j :| 0 <= j < |IdView(ids[..n], q)| && IdView(ids[..n], q)[j].index == i;
      assert rows[j] == IdView(ids[..n], q)[j];
    }
  }

  lemma EntryShownNarrows(e: IdEntry, q1: string, q2: string)
    requires IsPrefix(q1, q2) && EntryShown(e, q2)
    ensures EntryShown(e, q1)
  {
    if q1 != "" {
      if Contains(IntToString(ShownEntryId(e)), q2) {
        ContainsPrefix(IntToString(ShownEntryId(e)), q2, q1);
      } else {
        var cats := EntryCategories(e);
        var k :| 0 <= k < |cats| && Contains(Lower(cats[k]), q2);
        ContainsPrefix(Lower(cats[k]), q2, q1);
      }
    }
  }

  /** Some row of `rows` lists entity `i`. */
  predicate ListsIdRow(rows: seq<IdRow>, i: nat) {
    exists k :: 0 <= k < |rows| && rows[k].index == i
  }

  lemma IdViewNarrows(ids: seq<IdEntry>, q1: string, q2: string)
    requires IsPrefix(q1, q2)
    ensures forall j :: 0 <= j < |IdView(ids, q2)| ==> ListsIdRow(IdView(ids, q1), IdView(ids, q2)[j].index)
  {
    IdViewSound(ids, q2);
    forall j | 0 <= j < |IdView(ids, q2)|
      ensures ListsIdRow(IdView(ids, q1), IdView(ids, q2)[j].index)
    {
      var i := IdView(ids, q2)[j].index;
      EntryShownNarrows(ids[i], q1, q2);
      IdViewComplete(ids, q1, i);
    }
  }

  function IdLabel(e: IdEntry, row: IdRow): string {
    "ID: " + IntToString(ShownEntryId(e)) + (if row.starred then Star else "")
  }

  /** The Id a selected `IDs` caption names: the text after "ID: ", through
      `int()`; `None` when the prefix is missing or `int()` fails. */
  function LabelId(caption: string): Option<int> {
    if |caption| >= 4 && caption[..4] == "ID: " then ParseInt(caption[4..]) else None
  }

  /** Every listed caption, starred or not, names the Id it was made from. */
  lemma IdLabelKey(e: IdEntry, row: IdRow)
    ensures LabelId(StripStar(IdLabel(e, row))) == Some(ShownEntryId(e))
  {
    var plain := "ID: " + IntToString(ShownEntryId(e));
    if row.starred {
      StripStarOfStarred(plain);
    } else {
      assert IdLabel(e, row) == plain;
      var digits := IntToString(ShownEntryId(e));
      assert plain[|plain| - 1] == digits[|digits| - 1];
      assert IsDigit(digits[|digits| - 1]) by {
        if ShownEntryId(e) < 0 {
          assert digits == "-" + NatToString(-ShownEntryId(e));
        } else {
          assert digits == NatToString(ShownEntryId(e));
        }
      }
      assert plain[|plain| - 2..][1] == plain[|plain| - 1];
      assert !EndsWithStar(plain);
    }
    assert plain[4..] == IntToString(ShownEntryId(e));
    ParseIntToString(ShownEntryId(e));
  }

  // ---------------------------------------------------------------------------
  // ProductWindow.load_products

  /** The product window lists a well-formed product when its search text is
      empty or occurs in the lower-cased first six fields joined by commas. */
  predicate WindowShows(p: string, s: string) {
    Decode(p).Some? && (s == "" || Contains(Lower(Encode(Decode(p).value)), s))
  }

  /** One line of the product window; `found` marks a search hit. */
  datatype ProductRow = ProductRow(index: nat, found: bool)

  function ProductView(products: seq<string>, s: string): seq<ProductRow>
    decreases |products|
  {
    if |products| == 0 then []
    else
      var n := |products| - 1;
      ProductView(products[..n], s) + (if WindowShows(products[n], s) then [ProductRow(n, s != "")] else [])
  }

  lemma {:induction false} ProductViewSound(products: seq<string>, s: string)
    ensures (forall j :: 0 <= j < |ProductView(products, s)| ==>
            (ProductView(products, s)[j].index < |products| && WindowShows(products[ProductView(products, s)[j].index], s) && ProductView(products, s)[j].found == (s != "")))
    ensures (forall j, k :: 0 <= j < k < |ProductView(products, s)| ==> ProductView(products, s)[j].index < ProductView(products, s)[k].index)
    decreases |products|
  {
    if |products| > 0 {
      var n := |products| - 1;
      var pre := ProductView(products[..n], s);
      ProductViewSound(products[..n], s);
      var rows := ProductView(products, s);
      assert rows[..|pre|] == pre;
      forall j | 0 <= j < |rows|
        ensures rows[j].index < |products| && WindowShows(products[rows[j].index], s) && rows[j].found == (s != "")
      {
        if j < |pre| {
          assert rows[j] == pre[j];
          assert products[..n][pre[j].index] == products[pre[j].index];
        }
      }
      forall j, k | 0 <= j < k < |rows| ensures rows[j].index < rows[k].index {
        assert rows[j] == pre[j];
        if k < |pre| {
          assert rows[k] == pre[k];
        }
      }
    }
  }

  lemma {:induction false} ProductViewComplete(products: seq<string>, s: string, i: nat)
    requires i < |products| && WindowShows(products[i], s)
    ensures exists j :: 0 <= j < |ProductView(products, s)| && ProductView(products, s)[j].index == i
    decreases |products|
  {
    var n := |products| - 1;
    var rows := ProductView(products, s);
    if i == n {
      assert rows[|rows| - 1].index == i;
    } else {
      assert products[..n][i] == products[i];
      ProductViewComplete(products[..n], s, i);
      var j :| 0 <= j < |ProductView(products[..n], s)| && ProductView(products[..n], s)[j].index == i;
      assert rows[j] == ProductView(products[..n], s)[j];
    }
  }

  /** On a six-field line the product window and the category filter agree. */
  lemma WindowAgreesOnSixFields(p: string, q: string)
    requires |Split(p, ',')| == 6 && q != ""
    ensures WindowShows(p, q) <==> ProductMatches(p, q)
  {
    EncodeDecode(p);
  }

  /** A match inside the right-hand part of a text is a match in the text. */
  lemma ContainsInSuffix(a: string, b: string, q: string)
    requires Contains(b, q)
    ensures Contains(a + b, q)
  {
    var i :| 0 <= i <= |b| - |q| && OccursAt(b, q, i);
    assert (a + b)[|a| + i..|a| + i + |q|] == b[i..i + |q|];
    assert OccursAt(a + b, q, |a| + i);
  }

  /** On a line with a seventh field they can disagree: the category filter
      searches the whole line, the product window only its first six fields,
      so a category can be starred for a product its window does not list. */
  lemma WindowIgnoresExtraFields(f: Product, extra: string, q: string)
    requires CommaFree(f) && ',' !in extra
    requires Contains(Lower(extra), q) && !Contains(Lower(Encode(f)), q)
    ensures ProductMatches(Encode(f) + "," + extra, q)
    ensures !WindowShows(Encode(f) + "," + extra, q)
  {
    var p := Encode(f) + "," + extra;
    SplitJoin(Fields(f), ',');
    SplitWithoutSep(extra, ',');
    SplitAround(Encode(f), extra, ',');
    assert Split(p, ',') == Fields(f) + [extra];
    assert Decode(p) == Some(f) by {
      assert FromFields(Fields(f) + [extra]) == f;
    }
    ContainsEmpty(Lower(Encode(f)));
    LowerConcat(Encode(f) + ",", extra);
    ContainsInSuffix(Lower(Encode(f) + ","), Lower(extra), q);
  }

  // ---------------------------------------------------------------------------
  // From a listed row back to the entity a delete removes

  /** Appending an entity never changes the rows of those before it; the new
      one is listed last exactly when it passes the filter. */
  lemma CategoryViewAppend(cats: seq<Category>, c: Category, q: string)
    ensures CategoryView(cats + [c], q)
      == CategoryView(cats, q) + (if CategoryShown(c, q) then [CategoryRow(|cats|, NestedHit(c, q))] else [])
  {
    assert (cats + [c])[..|cats|] == cats;
  }

  /** A category added by name is listed last under the empty query. */
  lemma NewCategoryListedLast(cats: seq<Category>, name: string)
    ensures CategoryView(cats + [NewCategory(name)], "") == CategoryView(cats, "") + [CategoryRow(|cats|, None)]
  {
    CategoryViewAppend(cats, NewCategory(name), "");
  }

  /** Deleting by the caption of a listed category removes that very category
      when no earlier one has the same name and the caption is not an
      unstarred name ending in " ★"; everything else keeps its order. */
  lemma DeleteListedCategory(cats: seq<Category>, q: string, i: nat)
    requires i < |cats|
    requires NestedHit(cats[i], q).Some? || !EndsWithStar(cats[i].name)
    requires forall m :: 0 <= m < i ==> cats[m].name != cats[i].name
    ensures DeleteFirst(cats, CategoryNames(cats), StripStar(CategoryLabel(cats[i], CategoryRow(i, NestedHit(cats[i], q)))))
      == cats[..i] + cats[i + 1..]
  {
    CategoryLabelKey(cats[i], CategoryRow(i, NestedHit(cats[i], q)));
    IndexOfFirst(CategoryNames(cats), cats[i].name, Some(i));
  }

  /** Deleting by the caption of a listed trader removes that trader when it
      has a `GivenName` no earlier trader shares, and the caption is not an
      unstarred name ending in " ★". */
  lemma DeleteListedTrader(traders: seq<Trader>, q: string, i: nat)
    requires i < |traders| && traders[i].givenName.Some?
    requires q != "" || !EndsWithStar(GivenNameKey(traders[i]))
    requires forall m :: 0 <= m < i ==> GivenNameKey(traders[m]) != GivenNameKey(traders[i])
    ensures DeleteFirst(traders, GivenNameKeys(traders), StripStar(TraderLabel(traders[i], TraderRow(i, q != ""))))
      == traders[..i] + traders[i + 1..]
  {
    TraderLabelKey(traders[i], TraderRow(i, q != ""));
    IndexOfFirst(GivenNameKeys(traders), GivenNameKey(traders[i]), Some(i));
  }

  /** A trader without `GivenName` is listed as "Неизвестный" but deleted by
      the key "" ; unless some trader is really named "Неизвестный", deleting
      by its unstarred caption changes nothing. */
  lemma NamelessTraderKept(traders: seq<Trader>, i: nat)
    requires i < |traders| && traders[i].givenName.None?
    requires forall m :: 0 <= m < |traders| ==> traders[m].givenName != Some("Неизвестный")
    ensures DeleteFirst(traders, GivenNameKeys(traders), StripStar(TraderLabel(traders[i], TraderRow(i, false)))) == traders
  {
    var caption := TraderLabel(traders[i], TraderRow(i, false));
    assert caption == "Неизвестный";
    assert !EndsWithStar(caption);
    var keys := GivenNameKeys(traders);
    forall m | 0 <= m < |keys| ensures keys[m] != caption {
      assert keys[m] == GivenNameKey(traders[m]);
    }
  }

  /** Deleting by the caption of a listed `IDs` entry removes that entry when
      it has an Id no earlier entry shares. */
  lemma DeleteListedEntry(ids: seq<IdEntry>, q: string, i: nat)
    requires i < |ids| && ids[i].id.Some?
    requires forall m :: 0 <= m < i ==> ids[m].id != ids[i].id
    ensures DeleteFirst(ids, EntryIds(ids), LabelId(StripStar(IdLabel(ids[i], IdRow(i, q != ""))))) == ids[..i] + ids[i + 1..]
  {
    IdLabelKey(ids[i], IdRow(i, q != ""));
    IndexOfFirst(EntryIds(ids), ids[i].id, Some(i));
  }

  /** An entry without `Id` is listed as "ID: -1", but the delete compares
      the parsed -1 with each entry's `Id` and a missing `Id` never equals
      it: unless some entry really has Id -1, nothing is deleted. */
  lemma IdlessEntryKept(ids: seq<IdEntry>, q: string, i: nat)
    requires i < |ids| && ids[i].id.None?
    requires forall m :: 0 <= m < |ids| ==> ids[m].id != Some(-1)
    ensures DeleteFirst(ids, EntryIds(ids), LabelId(StripStar(IdLabel(ids[i], IdRow(i, q != ""))))) == ids
  {
    IdLabelKey(ids[i], IdRow(i, q != ""));
    assert Some(-1) !in EntryIds(ids);
  }

  /** Deleting by the classname shown in a product row removes that line when
      no earlier line, listed or not, starts with the same classname. */
  lemma DeleteListedProduct(products: seq<string>, s: string, i: nat)
    requires i < |products| && WindowShows(products[i], s)
    requires forall m :: 0 <= m < i ==> Split(products[m], ',')[0] != Split(products[i], ',')[0]
    ensures DeleteFirst(products, ClassnameKeys(products), Decode(products[i]).value.classname)
      == products[..i] + products[i + 1..]
  {
    IndexOfFirst(ClassnameKeys(products), Split(products[i], ',')[0], Some(i));
  }

  /** The line the product window lists is not the one its delete removes
      when a malformed line with the same classname comes first: the window
      lists only well-formed lines, but the search for the classname runs
      over every line, so the hidden line goes and the listed one stays. */
  lemma DeleteReachesHiddenLine(bad: string, good: string, s: string)
    requires Decode(bad).None? && WindowShows(good, s)
    requires Split(bad, ',')[0] == Decode(good).value.classname
    ensures ProductView([bad, good], s) == [ProductRow(1, s != "")]
    ensures DeleteFirst([bad, good], ClassnameKeys([bad, good]), Decode(good).value.classname) == [good]
  {
    var ps := [bad, good];
    assert ps[..1] == [bad];
    assert [bad][..0] == [];
    assert ProductView([bad], s) == [];
    var keys := ClassnameKeys(ps);
    assert keys[0] == Decode(good).value.classname;
    assert IndexOf(keys, keys[0]) == Some(0);
    assert ps[..0] + ps[1..] == [good];
  }
}
