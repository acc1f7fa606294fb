/** The product line format of `TraderCategories[*].Products`: six fields
    joined by commas, with no quoting, in the order classname, coefficient,
    maxStock, tradeQuantity, buy price, sell price. Fields are opaque text. */
module Codec {
  import opened Wrappers
  import opened Text
  import opened Seqs

  datatype Product = Product(
    classname: string,
    coefficient: string,
    maxStock: string,
    tradeQuantity: string,
    buyPrice: string,
    sellPrice: string)

  /** The six fields in line order. */
  function Fields(p: Product): (r: seq<string>)
    ensures |r| == 6
  {
    [p.classname, p.coefficient, p.maxStock, p.tradeQuantity, p.buyPrice, p.sellPrice]
  }

  function FromFields(f: seq<string>): Product
    requires |f| >= 6
  {
    Product(f[0], f[1], f[2], f[3], f[4], f[5])
  }

  /** No field holds the separator. */
  predicate CommaFree(p: Product) {
    forall k :: 0 <= k < 6 ==> ',' !in Fields(p)[k]
  }

  /** The six fields joined with `,` (both dialogs' `get_product_string`). */
  function Encode(p: Product): string {
    Join(Fields(p), ',')
  }

  /** `split(',')` of a product line: `None` when it has fewer than six
      fields, otherwise the first six (later fields are ignored). */
  function Decode(raw: string): (r: Option<Product>)
    ensures r.Some? <==> |Split(raw, ',')| >= 6
  {
    var parts := Split(raw, ',');
    if |parts| >= 6 then Some(FromFields(parts)) else None
  }

  /** Decoding an encoded product gives it back whenever no field holds a comma. */
  lemma DecodeEncode(p: Product)
    requires CommaFree(p)
    ensures Decode(Encode(p)) == Some(p)
  {
    SplitJoin(Fields(p), ',');
  }

  /** Decoding a line keeps exactly its first six fields: re-encoding gives
      the line back when it has six fields, and its first six fields joined
      when it has more. */
  lemma {:induction false} EncodeDecode(raw: string)
    requires |Split(raw, ',')| >= 6
    ensures Decode(raw).Some?
    ensures Encode(Decode(raw).value) == Join(Split(raw, ',')[..6], ',')
    ensures |Split(raw, ',')| == 6 ==> Encode(Decode(raw).value) == raw
  {
    var parts := Split(raw, ',');
    assert Fields(Decode(raw).value) == parts[..6];
    if |parts| == 6 {
      assert parts[..6] == parts;
      JoinSplit(raw, ',');
    }
  }

  // ---------------------------------------------------------------------------
  // ProductAddDialog

  /** Every field with surrounding whitespace removed. */
  function Trimmed(p: Product): Product {
    Product(Strip(p.classname), Strip(p.coefficient), Strip(p.maxStock),
      Strip(p.tradeQuantity), Strip(p.buyPrice), Strip(p.sellPrice))
  }

  /** `validate_and_accept`: the dialog closes only when every field is
      non-empty after stripping. */
  predicate ValidateAndAccept(form: Product) {
    forall k :: 0 <= k < 6 ==> Fields(Trimmed(form))[k] != ""
  }

  /** `ProductAddDialog.get_product_string`: the stripped fields, encoded. */
  function AddProductString(form: Product): string {
    Encode(Trimmed(form))
  }

  lemma StripCommaFree(s: string)
    requires ',' !in s
    ensures ',' !in Strip(s)
  {
    StripPiece(s);
    NoCharInPiece(s, Strip(s), ',');
  }

  lemma TrimmedCommaFree(form: Product)
    requires CommaFree(form)
    ensures CommaFree(Trimmed(form))
  {
    assert Fields(form)[0] == form.classname;
    assert Fields(form)[1] == form.coefficient;
    assert Fields(form)[2] == form.maxStock;
    assert Fields(form)[3] == form.tradeQuantity;
    assert Fields(form)[4] == form.buyPrice;
    assert Fields(form)[5] == form.sellPrice;
    StripCommaFree(form.classname);
    StripCommaFree(form.coefficient);
    StripCommaFree(form.maxStock);
    StripCommaFree(form.tradeQuantity);
    StripCommaFree(form.buyPrice);
    StripCommaFree(form.sellPrice);
  }

  /** A form the add dialog accepts yields a line that has exactly six
      non-empty fields and decodes to the stripped form, provided the user
      typed no comma. */
  lemma AddProductRoundTrip(form: Product)
    requires ValidateAndAccept(form) && CommaFree(form)
    ensures Decode(AddProductString(form)) == Some(Trimmed(form))
    ensures |Split(AddProductString(form), ',')| == 6
    ensures forall k :: 0 <= k < 6 ==> Split(AddProductString(form), ',')[k] != ""
  {
    var t := Trimmed(form);
    var f := Fields(t);
    TrimmedCommaFree(form);
    SplitJoin(f, ',');
    assert Split(AddProductString(form), ',') == f;
    assert FromFields(f) == t;
  }

  // ---------------------------------------------------------------------------
  // ProductEditDialog

  /** The fields of an edit dialog before any change: empty fields when the
      line has fewer than six fields, else its first six (`load_product_data`). */
  function LoadProductData(productStr: string): (form: Product)
    ensures |Split(productStr, ',')| >= 6 ==> Fields(form) == Split(productStr, ',')[..6]
    ensures |Split(productStr, ',')| < 6 ==> forall k :: 0 <= k < 6 ==> Fields(form)[k] == ""
  {
    match Decode(productStr)
    case Some(p) => p
    case None => Product("", "", "", "", "", "")
  }

  /** `ProductEditDialog.get_product_string`: the fields as typed, unstripped. */
  function EditProductString(form: Product): string {
    Encode(form)
  }

  /** Accepting the edit dialog without touching a field rewrites a line to
      its first six fields: a six-field line is unchanged, a longer one loses
      its extra fields, and a malformed one becomes five bare commas. */
  lemma UnmodifiedEdit(productStr: string)
    ensures |Split(productStr, ',')| >= 6 ==>
      EditProductString(LoadProductData(productStr)) == Join(Split(productStr, ',')[..6], ',')
    ensures |Split(productStr, ',')| == 6 ==> EditProductString(LoadProductData(productStr)) == productStr
    ensures |Split(productStr, ',')| < 6 ==> EditProductString(LoadProductData(productStr)) == ",,,,,"
  {
    if |Split(productStr, ',')| >= 6 {
      EncodeDecode(productStr);
    }
  }

  // ---------------------------------------------------------------------------
  // Lookup by classname

  /** `product.split(',')[0]` of every line: the key the product window edits
      and deletes a line by. Every line has one, well-formed or not. */
  function ClassnameKeys(products: seq<string>): (r: seq<string>)
    ensures |r| == |products| && forall i :: 0 <= i < |products| ==> r[i] == Split(products[i], ',')[0]
    ensures forall i :: 0 <= i < |products| && Decode(products[i]).Some? ==> r[i] == Decode(products[i]).value.classname
  {
    seq(|products|, i requires 0 <= i < |products| => Split(products[i], ',')[0])
  }

  /** The product window's edit and delete find line `i` for a classname
      exactly when `i` is the first line, listed or not, whose text before
      the first comma is that classname. */
  lemma FirstLineWithClassname(products: seq<string>, c: string, i: nat)
    ensures IndexOf(ClassnameKeys(products), c) == Some(i)
      <==> (i < |products| && Split(products[i], ',')[0] == c
            && forall m :: 0 <= m < i ==> Split(products[m], ',')[0] != c)
  {
    IndexOfIs(ClassnameKeys(products), c, i);
  }
}
