/** The trader and IDs edit dialogs: how an entity is shown in a form
    (`load_trader_data`, `load_trader_id_data`) and rebuilt from the form's
    text (`get_trader_data`, `get_trader_id_data`). Both start from a copy of
    the original, so keys the form does not show survive. */
module Forms {
  import opened Wrappers
  import opened Text
  import opened Document

  /** The six line edits of the trader dialog. */
  datatype TraderForm = TraderForm(
    idText: string,
    nameText: string,
    givenNameText: string,
    roleText: string,
    positionText: string,
    orientationText: string)

  /** The IDs dialog: the Id line edit and the categories text box. */
  datatype IdForm = IdForm(idText: string, categoriesText: string)

  /** `int(text)`, or 0 when Python raises `ValueError`. */
  function IdFromText(text: string): int {
    ParseInt(text).GetOr(0)
  }

  /** `str(data.get('Id', ''))`. */
  function IdText(id: Option<int>): string {
    match id
    case Some(n) => IntToString(n)
    case None => ""
  }

  /** An Id shown in a form and read back unchanged is the same Id. */
  lemma IdTextRoundTrip(n: int)
    ensures IdFromText(IdText(Some(n))) == n
  {
    ParseIntToString(n);
  }

  /** Id text without a single digit is not an integer and is stored as 0
      (the edit is not rejected). */
  lemma IdWithoutDigitsIsZero(text: string)
    requires forall k :: 0 <= k < |text| ==> !IsDigit(text[k])
    ensures IdFromText(text) == 0
  {
    var t := Strip(text);
    StripPiece(text);
    var i :| 0 <= i <= |text| - |t| && OccursAt(text, t, i);
    assert forall k :: 0 <= k < |t| ==> t[k] == text[i + k];
    if |t| > 1 {
      assert !IsDigit(t[1]);
    }
  }

  /** Any Id text that `int()` rejects is stored as 0. */
  lemma NonIntegerIdIsZero(text: string)
    requires ParseInt(text).None?
    ensures IdFromText(text) == 0
  {
  }

  /** Id text holding a character that is not a digit, other than a leading
      sign, after stripping (such as "1.5" or "12abc") is stored as 0. */
  lemma IdWithNonDigitIsZero(text: string, k: nat)
    requires k < |Strip(text)| && !IsDigit(Strip(text)[k])
    requires k > 0 || (Strip(text)[0] != '-' && Strip(text)[0] != '+')
    ensures IdFromText(text) == 0
  {
    ParseIntRejects(text, k);
  }

  // ---------------------------------------------------------------------------
  // Position and Orientation

  /** The three components as the form shows them, `str()` of a JSON number
      being `showNumber`; empty when the list has fewer than three. */
  function VectorText(v: seq<Json>, showNumber: Json -> string): string {
    if |v| >= 3 then showNumber(v[0]) + " " + showNumber(v[1]) + " " + showNumber(v[2]) else ""
  }

  /** A Position or Orientation read back from its form text: the first three
      whitespace-separated words through `float()` (here `parseFloat`, `None`
      standing for `ValueError`), or `[0, 0, 0]` when there are fewer than
      three words or one of them is not a number. */
  function VectorFromText(text: string, parseFloat: string -> Option<real>): (v: seq<Json>)
    ensures |v| == 3
    ensures |Words(text)| < 3 ==> v == ZeroVector
  {
    var words := Words(text);
    if |words| >= 3 then
      match (parseFloat(words[0]), parseFloat(words[1]), parseFloat(words[2]))
      case (Some(x), Some(y), Some(z)) => [JFloat(x), JFloat(y), JFloat(z)]
      case _ => ZeroVector
    else ZeroVector
  }

  /** A blank Position or Orientation text gives `[0, 0, 0]`. */
  lemma BlankVectorIsZero(text: string, parseFloat: string -> Option<real>)
    requires forall k :: 0 <= k < |text| ==> IsSpace(text[k])
    ensures VectorFromText(text, parseFloat) == ZeroVector
  {
    WordsEmpty(text);
  }

  /** Three numbers separated by spaces give a vector of those numbers. */
  lemma VectorOfThreeNumbers(x: string, y: string, z: string, parseFloat: string -> Option<real>)
    requires IsWord(x) && IsWord(y) && IsWord(z)
    requires parseFloat(x).Some? && parseFloat(y).Some? && parseFloat(z).Some?
    ensures VectorFromText(x + " " + y + " " + z, parseFloat)
      == [JFloat(parseFloat(x).value), JFloat(parseFloat(y).value), JFloat(parseFloat(z).value)]
  {
    ThreeWords(x, y, z);
  }

  // ---------------------------------------------------------------------------
  // TraderEditDialog

  /** `load_trader_data`: what the dialog shows for a trader. */
  function LoadTraderData(t: Trader, showNumber: Json -> string): TraderForm {
    TraderForm(
      IdText(t.id),
      t.name.GetOr(""),
      t.givenName.GetOr(""),
      t.role.GetOr(""),
      VectorText(t.position.GetOr(ZeroVector), showNumber),
      VectorText(t.orientation.GetOr(ZeroVector), showNumber))
  }

  /** `get_trader_data`: a copy of the original with the six shown keys
      replaced from the form; every other key is carried over as it was. */
  function GetTraderData(original: Trader, form: TraderForm, parseFloat: string -> Option<real>): (t: Trader)
    ensures t.rest == original.rest && (TraderWellFormed(original) ==> TraderWellFormed(t))
    ensures t.id == Some(IdFromText(form.idText))
    ensures t.name == Some(form.nameText) && t.givenName == Some(form.givenNameText) && t.role == Some(form.roleText)
    ensures t.position == Some(VectorFromText(form.positionText, parseFloat)) && |t.position.value| == 3
    ensures t.orientation == Some(VectorFromText(form.orientationText, parseFloat)) && |t.orientation.value| == 3
  {
    original.(
      id := Some(IdFromText(form.idText)),
      name := Some(form.nameText),
      givenName := Some(form.givenNameText),
      role := Some(form.roleText),
      position := Some(VectorFromText(form.positionText, parseFloat)),
      orientation := Some(VectorFromText(form.orientationText, parseFloat)))
  }

  /** Accepting the trader dialog untouched keeps the Id, the names, the role
      and every key the dialog does not show; a missing Id becomes 0 and a
      missing name or role the empty string. */
  lemma TraderEditRoundTrip(t: Trader, showNumber: Json -> string, parseFloat: string -> Option<real>)
    ensures var r := GetTraderData(t, LoadTraderData(t, showNumber), parseFloat);
      && r.id == Some(t.id.GetOr(0))
      && r.name == Some(t.name.GetOr(""))
      && r.givenName == Some(t.givenName.GetOr(""))
      && r.role == Some(t.role.GetOr(""))
      && r.rest == t.rest
  {
    if t.id.Some? {
      IdTextRoundTrip(t.id.value);
    }
  }

  /** The trader `add_trader` appends when its dialog is accepted untouched
      has the Id `n` it was opened with and still has its `Clothes` list. */
  lemma NewTraderUntouched(n: nat, showNumber: Json -> string, parseFloat: string -> Option<real>)
    ensures var r := GetTraderData(DefaultTrader(n), LoadTraderData(DefaultTrader(n), showNumber), parseFloat);
      r.id == Some(n) && r.givenName == Some("Новый торговец") && "Clothes" in r.rest
  {
    TraderEditRoundTrip(DefaultTrader(n), showNumber, parseFloat);
  }

  // ---------------------------------------------------------------------------
  // TraderIDEditDialog

  /** A category list entry that the categories text box reproduces exactly:
      non-empty, one line, no surrounding whitespace. */
  predicate CleanLine(s: string) {
    s != [] && '\n' !in s && !IsSpace(s[0]) && !IsSpace(s[|s| - 1])
  }

  /** `[cat.strip() for cat in lines if cat.strip()]`. */
  function CleanLines(lines: seq<string>): (r: seq<string>)
    ensures |r| <= |lines|
    ensures (forall k :: 0 <= k < |lines| ==> '\n' !in lines[k]) ==> forall k :: 0 <= k < |r| ==> CleanLine(r[k])
    decreases |lines|
  {
    if |lines| == 0 then []
    else
      var s := Strip(lines[0]);
      assert '\n' !in lines[0] ==> '\n' !in s by {
        if '\n' !in lines[0] {
          StripPiece(lines[0]);
          NoCharInPiece(lines[0], s, '\n');
        }
      }
      (if s != "" then [s] else []) + CleanLines(lines[1..])
  }

  /** The categories typed one per line: stripped, blank lines dropped, in order. */
  function CategoriesFromText(text: string): (r: seq<string>)
    ensures forall k :: 0 <= k < |r| ==> CleanLine(r[k])
  {
    CleanLines(Split(text, '\n'))
  }

  /** Cleaning works line by line: a line contributes its stripped text when
      that is not empty, and nothing otherwise. */
  lemma CleanLinesOne(line: string)
    ensures CleanLines([line]) == if Strip(line) != "" then [Strip(line)] else []
  {
    assert [line][1..] == [];
  }

  /** Cleaning keeps the order of the lines: cleaning two blocks of lines is
      cleaning each and putting the results together. */
  lemma {:induction false} CleanLinesAppend(a: seq<string>, b: seq<string>)
    ensures CleanLines(a + b) == CleanLines(a) + CleanLines(b)
    decreases |a|
  {
    if |a| == 0 {
      assert a + b == b;
    } else {
      assert (a + b)[0] == a[0];
      assert (a + b)[1..] == a[1..] + b;
      CleanLinesAppend(a[1..], b);
    }
  }

  /** `s` is the stripped text of one of the lines. */
  predicate StrippedLineOf(lines: seq<string>, s: string) {
    exists k :: 0 <= k < |lines| && Strip(lines[k]) == s
  }

  /** Every item is the non-empty stripped text of some line. */
  lemma {:induction false} CleanLinesSound(lines: seq<string>)
    ensures forall j :: 0 <= j < |CleanLines(lines)| ==>
      CleanLines(lines)[j] != "" && StrippedLineOf(lines, CleanLines(lines)[j])
    decreases |lines|
  {
    if |lines| > 0 {
      CleanLinesSound(lines[1..]);
      var s := Strip(lines[0]);
      var head := if s != "" then [s] else [];
      var r := CleanLines(lines);
      var tail := CleanLines(lines[1..]);
      assert r == head + tail;
      forall j | 0 <= j < |r| ensures r[j] != "" && StrippedLineOf(lines, r[j]) {
        if j < |head| {
          assert r[j] == s && Strip(lines[0]) == s;
        } else {
          assert r[j] == tail[j - |head|];
          var k :| 0 <= k < |lines[1..]| && Strip(lines[1..][k]) == tail[j - |head|];
          assert Strip(lines[k + 1]) == r[j];
        }
      }
    }
  }

  /** Every line with non-blank text shows up, stripped, among the items. */
  lemma {:induction false} CleanLinesComplete(lines: seq<string>, k: nat)
    requires k < |lines| && Strip(lines[k]) != ""
    ensures Strip(lines[k]) in CleanLines(lines)
    decreases |lines|
  {
    var s := Strip(lines[0]);
    var head := if s != "" then [s] else [];
    assert CleanLines(lines) == head + CleanLines(lines[1..]);
    if k > 0 {
      assert lines[1..][k - 1] == lines[k];
      CleanLinesComplete(lines[1..], k - 1);
    }
  }

  /** The categories typed into the box are the non-blank lines, stripped:
      each item is the stripped text of a line, and every non-blank line gives
      an item. */
  lemma CategoriesFromTextLines(text: string)
    ensures forall j :: 0 <= j < |CategoriesFromText(text)| ==>
      StrippedLineOf(Split(text, '\n'), CategoriesFromText(text)[j])
    ensures forall k :: 0 <= k < |Split(text, '\n')| && Strip(Split(text, '\n')[k]) != "" ==>
      Strip(Split(text, '\n')[k]) in CategoriesFromText(text)
  {
    var lines := Split(text, '\n');
    CleanLinesSound(lines);
    forall k | 0 <= k < |lines| && Strip(lines[k]) != "" ensures Strip(lines[k]) in CleanLines(lines) {
      CleanLinesComplete(lines, k);
    }
  }

  /** The categories keep the order of their lines: the text above a line
      break gives the first items and the text below it the rest. */
  lemma CategoriesFromTextAppend(x: string, y: string)
    ensures CategoriesFromText(x + "\n" + y) == CategoriesFromText(x) + CategoriesFromText(y)
  {
    SplitAround(x, y, '\n');
    assert x + "\n" + y == x + ['\n'] + y;
    CleanLinesAppend(Split(x, '\n'), Split(y, '\n'));
  }

  lemma {:induction false} CleanLinesOfClean(lines: seq<string>)
    requires forall k :: 0 <= k < |lines| ==> CleanLine(lines[k])
    ensures CleanLines(lines) == lines
    decreases |lines|
  {
    if |lines| > 0 {
      StripUnchanged(lines[0]);
      CleanLinesOfClean(lines[1..]);
      assert [lines[0]] + lines[1..] == lines;
    }
  }

  /** Showing a list of clean category names one per line and reading the
      text back gives the same list. */
  lemma CategoriesRoundTrip(cats: seq<string>)
    requires forall k :: 0 <= k < |cats| ==> CleanLine(cats[k])
    ensures CategoriesFromText(Join(cats, '\n')) == cats
  {
    if |cats| == 0 {
      assert Split("", '\n') == [""];
    } else {
      SplitJoin(cats, '\n');
      CleanLinesOfClean(cats);
    }
  }

  /** `load_trader_id_data`: the Id and the categories joined by newlines. */
  function LoadTraderIdData(e: IdEntry): IdForm {
    IdForm(IdText(e.id), Join(EntryCategories(e), '\n'))
  }

  /** `get_trader_id_data`: a copy of the original with `Id` and `Categories`
      replaced from the form; every other key is carried over as it was. */
  function GetTraderIdData(original: IdEntry, form: IdForm): (e: IdEntry)
    ensures e.rest == original.rest && (EntryWellFormed(original) ==> EntryWellFormed(e))
    ensures e.id == Some(IdFromText(form.idText))
    ensures e.categories == Some(CategoriesFromText(form.categoriesText))
    ensures forall k :: 0 <= k < |e.categories.value| ==> CleanLine(e.categories.value[k])
  {
    original.(id := Some(IdFromText(form.idText)), categories := Some(CategoriesFromText(form.categoriesText)))
  }

  /** Accepting the IDs dialog untouched gives back the entry itself when it
      has an Id and a list of clean category names. */
  lemma IdEntryEditRoundTrip(e: IdEntry)
    requires e.id.Some? && e.categories.Some?
    requires forall k :: 0 <= k < |e.categories.value| ==> CleanLine(e.categories.value[k])
    ensures GetTraderIdData(e, LoadTraderIdData(e)) == e
  {
    IdTextRoundTrip(e.id.value);
    CategoriesRoundTrip(e.categories.value);
  }

  /** The entry `add_trader_id` appends when its dialog is accepted untouched
      is the default entry itself: Id `n`, no categories, empty licence and
      currency lists. */
  lemma NewIdEntryUntouched(n: nat)
    ensures GetTraderIdData(DefaultIdEntry(n), LoadTraderIdData(DefaultIdEntry(n))) == DefaultIdEntry(n)
  {
    IdEntryEditRoundTrip(DefaultIdEntry(n));
  }
}
