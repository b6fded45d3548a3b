/**
 * The item store's four handlers as transitions of the dictionary `items`
 * (name to quantity, in insertion order), and the search outcome and its label.
 * Each handler receives the raw text of the input fields it reads.
 */
module Inventory {
  import opened Wrappers
  import opened Text
  import opened OrderedDict

  /** `item_name and text.isdigit()`: the guard of adding and of updating. */
  predicate ValidInput(name: string, text: string) {
    name != "" && AllDigits(text)
  }

  /** Every quantity in the store is non-negative. */
  predicate NonNegative(d: Items) {
    forall j :: 0 <= j < |d| ==> d[j].qty >= 0
  }

  // ---------- add / increment ----------

  /** Pressing "Add Item": with a name and an all-digit quantity, the quantity is added
      to an existing entry in place, or a new entry is appended; otherwise nothing. */
  function Add(d: Items, name: string, text: string): (r: Items)
    requires UniqueKeys(d)
    ensures UniqueKeys(r)
    ensures !ValidInput(name, text) ==> r == d
    ensures ValidInput(name, text) ==>
      Has(r, name) && Get(r, name) == (if Has(d, name) then Get(d, name) else 0) + ParseNat(text)
    ensures ValidInput(name, text) && Has(d, name) ==>
      |r| == |d| && Find(r, name) == Find(d, name)
    ensures ValidInput(name, text) && !Has(d, name) ==> r == d + [Entry(name, ParseNat(text))]
    ensures forall j :: 0 <= j < |d| ==> r[j].name == d[j].name
    ensures forall j :: 0 <= j < |d| && d[j].name != name ==> r[j] == d[j]
    ensures NonNegative(d) ==> NonNegative(r)
  {
    if ValidInput(name, text) then
      if Has(d, name) then Put(d, name, Get(d, name) + ParseNat(text))
      else Put(d, name, ParseNat(text))
    else d
  }

  /** Adding twice under one name accumulates: the second add sees the first's sum. */
  lemma AddAccumulates(d: Items, name: string, a: string, b: string)
    requires UniqueKeys(d) && ValidInput(name, a) && ValidInput(name, b)
    ensures Get(Add(Add(d, name, a), name, b), name)
         == (if Has(d, name) then Get(d, name) else 0) + ParseNat(a) + ParseNat(b)
    ensures |Add(Add(d, name, a), name, b)| == |Add(d, name, a)|
  {
  }

  /** `add("X", "3"); add("X", "4")` on an empty store leaves exactly X = 7. */
  lemma AddThreeThenFour()
    ensures Add(Add([], "X", "3"), "X", "4") == [Entry("X", 7)]
  {
    assert ParseNat("3") == 3 && ParseNat("4") == 4;
    var once := Add([], "X", "3");
    assert once == [Entry("X", 3)];
    assert Find(once, "X") == Some(0);
  }

  // ---------- remove ----------

  /** Pressing "Remove Item": a present key is deleted, keeping the others in order;
      an absent key (the empty name included) changes nothing. */
  function Remove(d: Items, name: string): (r: Items)
    requires UniqueKeys(d)
    ensures UniqueKeys(r) && !Has(r, name)
    ensures r == Without(d, name)
    ensures !Has(d, name) ==> r == d
    ensures Has(d, name) ==> |r| == |d| - 1
    ensures NonNegative(d) ==> NonNegative(r)
  {
    if Has(d, name) then Delete(d, name)
    else
      WithoutAbsent(d, name);
      d
  }

  /** Removing never changes another key's presence or quantity. */
  lemma RemoveOther(d: Items, name: string, k: string)
    requires UniqueKeys(d) && k != name
    ensures Has(Remove(d, name), k) == Has(d, k)
    ensures Has(d, k) ==> Get(Remove(d, name), k) == Get(d, k)
  {
    if Has(d, name) {
      DeleteOther(d, name, k);
    }
  }

  /** A second remove of the same name is a no-op. */
  lemma RemoveIdempotent(d: Items, name: string)
    requires UniqueKeys(d)
    ensures Remove(Remove(d, name), name) == Remove(d, name)
  {
  }

  // ---------- update ----------

  /** What `update_item_quantity` reports: success, or one of its two diagnostics. */
  datatype UpdateOutcome = Updated | NoSuchItem | InvalidInput

  /** Pressing "Update Item Quantity": with a name and an all-digit quantity, an existing
      entry's quantity is replaced in place; otherwise a diagnostic and nothing changes. */
  function Update(d: Items, name: string, text: string): (r: (Items, UpdateOutcome))
    requires UniqueKeys(d)
    ensures UniqueKeys(r.0)
    ensures r.1 == InvalidInput <==> !ValidInput(name, text)
    ensures r.1 == NoSuchItem <==> ValidInput(name, text) && !Has(d, name)
    ensures r.1 != Updated ==> r.0 == d
    ensures r.1 == Updated ==> Has(r.0, name) && Get(r.0, name) == ParseNat(text)
    ensures |r.0| == |d|
    ensures forall j :: 0 <= j < |d| ==> r.0[j].name == d[j].name
    ensures forall j :: 0 <= j < |d| && d[j].name != name ==> r.0[j] == d[j]
    ensures NonNegative(d) ==> NonNegative(r.0)
  {
    if ValidInput(name, text) then
      if Has(d, name) then (Put(d, name, ParseNat(text)), Updated)
      else (d, NoSuchItem)
    else (d, InvalidInput)
  }

  /** Update overwrites rather than accumulates: after any add, an update of the same
      name with digits leaves exactly the new value. */
  lemma UpdateAfterAdd(d: Items, name: string, a: string, b: string)
    requires UniqueKeys(d) && ValidInput(name, a) && ValidInput(name, b)
    ensures Update(Add(d, name, a), name, b).1 == Updated
    ensures Get(Update(Add(d, name, a), name, b).0, name) == ParseNat(b)
  {
  }

  /** `add("X", "3"); update("X", "10")` on an empty store leaves exactly X = 10. */
  lemma AddThreeUpdateTen()
    ensures Update(Add([], "X", "3"), "X", "10").0 == [Entry("X", 10)]
  {
    assert ParseNat("3") == 3;
    assert ParseNat("10") == 10 by {
      assert "10"[..1] == "1";
    }
    var once := Add([], "X", "3");
    assert once == [Entry("X", 3)];
    assert Find(once, "X") == Some(0);
  }

  // ---------- search ----------

  /** What the search label shows. */
  datatype SearchOutcome = PleaseEnter | NotFound | Found(name: string, qty: int)

  /** `search_input.text.strip().lower()` */
  function SearchTerm(text: string): string {
    ToLower(Strip(text))
  }

  /** `search_term in item_name.lower()` */
  predicate Matches(e: Entry, term: string) {
    Contains(term, ToLower(e.name))
  }

  /** The position of the first entry, in insertion order, whose name contains the term. */
  function FirstMatch(d: Items, term: string): (r: Option<nat>)
    ensures r.Some? ==> r.value < |d| && Matches(d[r.value], term)
    ensures r.Some? ==> forall j :: 0 <= j < r.value ==> !Matches(d[j], term)
    ensures r.None? <==> forall j :: 0 <= j < |d| ==> !Matches(d[j], term)
  {
    if d == [] then None
    else if Matches(d[0], term) then Some(0)
    else match FirstMatch(d[1..], term)
      case None => None
      case Some(i) => Some(i + 1)
  }

  /** An entry that matches, with no match before it, is the first match. */
  lemma FirstMatchAt(d: Items, term: string, i: nat)
    requires i < |d| && Matches(d[i], term)
    requires forall j :: 0 <= j < i ==> !Matches(d[j], term)
    ensures FirstMatch(d, term) == Some(i)
  {
  }

  /** Pressing "Search": a blank term asks for a name; otherwise the first entry whose
      lower-cased name contains the lower-cased term, with its stored name and
      quantity, or "not found". */
  function Search(d: Items, text: string): (o: SearchOutcome)
    ensures o.Found? ==> exists j :: 0 <= j < |d| && d[j] == Entry(o.name, o.qty)
  {
    var term := SearchTerm(text);
    if term == "" then PleaseEnter
    else match FirstMatch(d, term)
      case None => NotFound
      case Some(i) => Found(d[i].name, d[i].qty)
  }

  /** The "please enter" outcome comes exactly from a blank term, whatever the store. */
  lemma SearchBlank(d: Items, text: string)
    ensures Search(d, text) == PleaseEnter <==> forall i :: 0 <= i < |text| ==> IsSpace(text[i])
  {
    StripSpec(text);
  }

  /** "Not found" comes exactly from a term that no entry's name contains. */
  lemma SearchNotFound(d: Items, text: string)
    ensures Search(d, text) == NotFound <==>
      SearchTerm(text) != "" && forall j :: 0 <= j < |d| ==> !Matches(d[j], SearchTerm(text))
  {
  }

  /** The found entry is the first match: any entry that matches and has no match
      before it is what the search reports, and vice versa. */
  lemma SearchFindsFirst(d: Items, text: string, i: nat)
    requires i < |d| && SearchTerm(text) != ""
    ensures Matches(d[i], SearchTerm(text)) && (forall j :: 0 <= j < i ==> !Matches(d[j], SearchTerm(text)))
      ==> Search(d, text) == Found(d[i].name, d[i].qty)
    ensures UniqueKeys(d) && Search(d, text) == Found(d[i].name, d[i].qty) ==>
      Matches(d[i], SearchTerm(text)) && forall j :: 0 <= j < i ==> !Matches(d[j], SearchTerm(text))
  {
    var term := SearchTerm(text);
    if Matches(d[i], term) && (forall j :: 0 <= j < i ==> !Matches(d[j], term)) {
      FirstMatchAt(d, term, i);
    }
    if UniqueKeys(d) && Search(d, text) == Found(d[i].name, d[i].qty) {
      var m := FirstMatch(d, term).value;
      FindEntry(d, m);
      FindEntry(d, i);
    }
  }

  /** `s.strip().lower()` is `s.lower().strip()`: lower-casing never makes or removes
      white space. */
  lemma {:induction false} StripLeftLower(s: string)
    ensures StripLeft(ToLower(s)) == ToLower(StripLeft(s))
    decreases |s|
  {
    if s != [] && IsSpace(s[0]) {
      assert ToLower(s)[1..] == ToLower(s[1..]);
      StripLeftLower(s[1..]);
    }
  }

  lemma {:induction false} StripRightLower(s: string)
    ensures StripRight(ToLower(s)) == ToLower(StripRight(s))
    decreases |s|
  {
    if s != [] && IsSpace(s[|s| - 1]) {
      assert ToLower(s)[..|s| - 1] == ToLower(s[..|s| - 1]);
      StripRightLower(s[..|s| - 1]);
    }
  }

  /** The term can be equally computed by lower-casing first and stripping after. */
  lemma SearchTermLowerFirst(t: string)
    ensures SearchTerm(t) == StripRight(StripLeft(ToLower(t)))
  {
    calc {
      SearchTerm(t);
      ToLower(StripRight(StripLeft(t)));
      { StripRightLower(StripLeft(t)); }
      StripRight(ToLower(StripLeft(t)));
      { StripLeftLower(t); }
      StripRight(StripLeft(ToLower(t)));
    }
  }

  /** The search is case-insensitive in the term: two texts that agree after
      lower-casing give the same outcome on every store. */
  lemma SearchIgnoresCase(d: Items, t1: string, t2: string)
    requires ToLower(t1) == ToLower(t2)
    ensures Search(d, t1) == Search(d, t2)
  {
    SearchTermLowerFirst(t1);
    SearchTermLowerFirst(t2);
    assert SearchTerm(t1) == SearchTerm(t2);
  }

  /** An entry matches a search text exactly when some window of its name equals the
      stripped text character by character, ignoring case. */
  lemma MatchesIgnoringCase(e: Entry, text: string)
    ensures Matches(e, SearchTerm(text)) <==>
      exists k: nat :: k <= |e.name| && EqualIgnoringCaseAt(Strip(text), e.name, k)
  {
    ContainsIgnoringCase(Strip(text), e.name);
  }

  /** With {"Apple": 1, "apricot": 2}, searching "ap" reports whichever came first. */
  lemma SearchApExample()
    ensures Search([Entry("Apple", 1), Entry("apricot", 2)], "ap") == Found("Apple", 1)
    ensures Search([Entry("apricot", 2), Entry("Apple", 1)], "ap") == Found("apricot", 2)
  {
    assert StripLeft("ap") == "ap";
    assert StripRight("ap") == "ap";
    assert ToLower("ap") == "ap";
    assert SearchTerm("ap") == "ap";
    assert ToLower("Apple")[..2] == "ap";
    assert OccursAt("ap", ToLower("Apple"), 0);
    assert ToLower("apricot")[..2] == "ap";
    assert OccursAt("ap", ToLower("apricot"), 0);
    FirstMatchAt([Entry("Apple", 1), Entry("apricot", 2)], "ap", 0);
    FirstMatchAt([Entry("apricot", 2), Entry("Apple", 1)], "ap", 0);
  }

  /** The label for a found entry: its name and its quantity written by `str`. */
  function FoundText(name: string, qty: int): (t: string)
    ensures |t| > 15 && t[..15] == "Search Result: "
    ensures IsDigit(t[|t| - 1])
  {
    var digits := IntToString(qty);
    var t := "Search Result: " + name + " - Quantity: " + digits;
    assert t[|t| - 1] == digits[|digits| - 1];
    t
  }

  /**
   * The search label, with the three texts the handler writes: a found entry's name and
   * quantity, "not found", or the prompt for a blank term.
   */
  function ResultText(o: SearchOutcome): (t: string)
    ensures |t| > 15 && t[..15] == "Search Result: "
    ensures o.Found? <==> IsDigit(t[|t| - 1])
  {
    match o
    case PleaseEnter => "Search Result: Please enter an item name."
    case NotFound => "Search Result: Item not found."
    case Found(name, qty) => FoundText(name, qty)
  }

  /** The three kinds of outcome never show the same label. */
  lemma ResultTextsDistinct(o1: SearchOutcome, o2: SearchOutcome)
    requires ResultText(o1) == ResultText(o2)
    ensures o1.PleaseEnter? == o2.PleaseEnter? && o1.NotFound? == o2.NotFound?
  {
    assert |ResultText(PleaseEnter)| != |ResultText(NotFound)|;
  }

  // ---------- sessions: any sequence of button presses ----------

  /** One press of a button of the main screen, with the text of the fields it reads. */
  datatype Op =
    | AddOp(name: string, text: string)
    | RemoveOp(name: string)
    | UpdateOp(name: string, text: string)
    | SearchOp(text: string)

  /** The store after one press; searching leaves it as it was. */
  function Step(d: Items, op: Op): (r: Items)
    requires UniqueKeys(d)
    ensures UniqueKeys(r)
    ensures op.SearchOp? ==> r == d
  {
    match op
    case AddOp(name, text) => Add(d, name, text)
    case RemoveOp(name) => Remove(d, name)
    case UpdateOp(name, text) => Update(d, name, text).0
    case SearchOp(_) => d
  }

  /** The store after a whole session of presses, in order. */
  function Run(d: Items, ops: seq<Op>): (r: Items)
    requires UniqueKeys(d)
    ensures UniqueKeys(r)
    decreases |ops|
  {
    if ops == [] then d else Run(Step(d, ops[0]), ops[1..])
  }

  /** Some press of the session adds under name `k` with valid input. */
  predicate AddsName(ops: seq<Op>, k: string) {
    exists i :: 0 <= i < |ops| && ops[i].AddOp? && ops[i].name == k && ValidInput(k, ops[i].text)
  }

  /** Quantities stay non-negative through any session: new values only come from
      `int` of digit strings, and increments add such values. */
  lemma {:induction false} RunNonNegative(d: Items, ops: seq<Op>)
    requires UniqueKeys(d) && NonNegative(d)
    ensures NonNegative(Run(d, ops))
    decreases |ops|
  {
    if ops != [] {
      var d' := Step(d, ops[0]);
      assert NonNegative(d') by {
        match ops[0]
        case AddOp(name, text) =>
        case RemoveOp(name) =>
        case UpdateOp(name, text) =>
        case SearchOp(_) =>
      }
      RunNonNegative(d', ops[1..]);
    }
  }

  /** A key present after one press was present before it or was just added. */
  lemma StepKeysOrigin(d: Items, op: Op, k: string)
    requires UniqueKeys(d)
    ensures Has(Step(d, op), k) ==>
      Has(d, k) || (op.AddOp? && op.name == k && ValidInput(k, op.text))
  {
    match op
    case AddOp(name, text) =>
      if name != k && ValidInput(name, text) {
        PutOther(d, name, if Has(d, name) then Get(d, name) + ParseNat(text) else ParseNat(text), k);
      }
    case RemoveOp(name) =>
      if name != k {
        RemoveOther(d, name, k);
      }
    case UpdateOp(name, text) =>
      if name != k && ValidInput(name, text) && Has(d, name) {
        PutOther(d, name, ParseNat(text), k);
      }
    case SearchOp(_) =>
  }

  /** A key present after a session was present before it or was added during it. */
  lemma {:induction false} RunKeysOrigin(d: Items, ops: seq<Op>, k: string)
    requires UniqueKeys(d)
    ensures Has(Run(d, ops), k) ==> Has(d, k) || AddsName(ops, k)
    decreases |ops|
  {
    if ops != [] {
      var d' := Step(d, ops[0]);
      RunKeysOrigin(d', ops[1..], k);
      StepKeysOrigin(d, ops[0], k);
      if AddsName(ops[1..], k) {
        var i :| 0 <= i < |ops[1..]| && ops[1..][i].AddOp? && ops[1..][i].name == k
                 && ValidInput(k, ops[1..][i].text);
        assert ops[i + 1] == ops[1..][i];
      }
      if ops[0].AddOp? && ops[0].name == k && ValidInput(k, ops[0].text) {
        assert AddsName(ops, k) by {
          assert ops[0].AddOp? && ops[0].name == k;
        }
      }
    }
  }
}
