# Item store of a desktop inventory tracker

This project models the item store of a small desktop inventory tracker. The store is a
dictionary `app.items` from item name to quantity. Its order is the insertion order, which
is the order Python's `dict` keeps. Four handlers of the main screen change or read it:

- **Add Item** adds the typed quantity to an existing entry, or appends a new entry. It does
  this only when the name is non-empty and the quantity text is all digits.
- **Remove Item** deletes the named entry if it is present.
- **Update Item Quantity** overwrites the quantity of an existing entry, when the text is all
  digits.
- **Search** strips and lower-cases the term. It then reports the first entry, in insertion
  order, whose lower-cased name contains the term.

After every change that succeeds, the whole store is written to `items.json`. At start-up
the store is read back from that file, or starts empty when the file does not exist.

Modules, one per layer of the program:

- `Wrappers` (Wrappers.dfy): `Option`.
- `Text` (Text.dfy): the ASCII versions of `str.isdigit`, `int(...)`, `str(...)`,
  `str.lower`, `str.strip` and `sub in s`.
- `OrderedDict` (OrderedDict.dfy): a Python `dict` as the sequence of its entries in
  insertion order, with `k in d` (`Find`/`Has`), `d[k]` (`Get`), `d[k] = v` (`Put`) and
  `del d[k]` (`Delete`). `Without` is an independent reference definition of deletion
  (filtering).
- `Inventory` (Inventory.dfy): the four handlers as transitions of the store, with the
  properties that relate several of them. It also holds the search outcome, the label text
  derived from it, and sessions (any sequence of button presses).
- `App` (App.dfy): the class `ItemApp`. It holds the fields `items` and `disk` (the contents
  of `items.json`), a constructor for `build`/`load_items`, `SaveItems`, and the handlers as
  methods that change `items` in place. `SearchItem` is the scanning loop with the invariant
  "no earlier entry matched". The invariant `Valid()` says two things: keys are unique, and
  the file mirrors the store exactly. The one exception is a session that started without a
  file and has not saved yet; then both are empty.

Modelling decisions, each following what the code does:

- Quantities are `int`, not `nat`. `json.load` can return any integer from a file edited by
  hand. The model instead proves that non-negativity is kept by every handler and by every
  session (`RunNonNegative`).
- Remove does not check for an empty name (main.py:85). A key `""` that came from the file
  can be removed.
- A blank search term is blank after `strip()`, so a term made only of white space also gets
  "Please enter an item name." (main.py:109, 112).
- An update that fails does not raise an error. It only prints a diagnostic. The model
  represents the two diagnostics as the `NoSuchItem` and `InvalidInput` outcomes; the store
  is unchanged.
- A name made only of spaces counts as non-empty for add and update (main.py:72, 93), as in
  the code.

The methods `SessionAddTwice`, `SessionRemoveTwice`, `SessionBlankSearch` and
`SessionAddThenUpdate` in App.dfy replay the example scenarios on the class itself: two adds
of "3" and "4" give 7, an add then an update to "10" gives 10, a second remove changes and saves
nothing, and a blank search asks for a name whatever the file held. Their asserts are proved
from the methods' contracts alone. They have no contract of their own, so they have no row
in the table.

## Model

| member | source | states |
|---|---|---|
| Text.AllDigits | main.py:72 | `isdigit()` is false for the empty text and true exactly when every character is one of 0..9 |
| Text.ParseNat | main.py:75 | `int` of a string of k decimal digits is a natural number below 10^k |
| Text.ParseNatLeadingZero | main.py:72-77 | `isdigit` accepts leading zeros and `int` ignores them: "0"+s parses to the same value as s |
| Text.NatToString | main.py:116 | `str` of a natural number is an all-digit string without a leading zero (except "0") that `int` reads back to the same number |
| Text.IntToString | main.py:116 | `str` of a quantity starts with '-' exactly when it is negative, and the digits after the sign read back to its magnitude |
| Text.LowerChar | main.py:115 | lower-casing leaves no capital letter, shifts A..Z by 32 and keeps every other character |
| Text.ToLower | main.py:109 | `lower()` keeps the length and lower-cases each character in place |
| Text.StripLeftSpec | main.py:109 | the left strip is a suffix, drops only white space, and leaves none at the front |
| Text.StripRightSpec | main.py:109 | the right strip is a prefix, drops only white space, and leaves none at the back |
| Text.Strip | main.py:109 | `strip()` removes the white space (characters 9-13, 28-32) at both ends and nothing else |
| Text.StripSpec | main.py:109 | `strip()` is empty exactly when the text is all white space; otherwise it starts and ends with other characters |
| Text.Contains | main.py:115 | `sub in s` holds exactly when `sub` occurs at some position of `s`, at any position for the empty `sub` |
| Text.WindowIgnoringCase | main.py:115 | the lower-cased term occurs at position k of the lower-cased name exactly when the term and that window agree letter by letter up to case |
| Text.ContainsIgnoringCase | main.py:115 | the lower-cased name contains the lower-cased term exactly when some window of the name equals the term up to case |
| OrderedDict.Has | main.py:74 | `k in d` holds exactly when some entry is named `k` |
| OrderedDict.Get | main.py:75 | `d[k]` for a present key is the quantity of the first entry named `k` |
| OrderedDict.Find | main.py:74 | `k in d` finds the first position holding `k`, and none exactly when no entry is named `k` |
| OrderedDict.FindEntry | main.py:74 | with unique keys, looking up any entry's name finds that entry's position and quantity |
| OrderedDict.Put | main.py:75-77 | `d[k] = v` keeps keys unique, makes `d[k] == v`, keeps every old key at its position and every other entry unchanged, overwrites in place or appends at the end |
| OrderedDict.PutOther | main.py:75-77 | `d[k] = v` does not change where another key is found or its value |
| OrderedDict.Delete | main.py:86 | `del d[k]` equals filtering out `k`, keeps keys unique, removes `k`, shortens by one and shifts the later entries down by one in order |
| OrderedDict.DeleteOther | main.py:86 | `del d[k]` leaves every other key's presence and value unchanged |
| OrderedDict.CutIsWithout | main.py:86 | removing the single position of a key equals filtering that key out |
| Inventory.ValidInput | main.py:72 | add and update go ahead only for a non-empty name and a quantity text that `isdigit()` accepts |
| Inventory.Add | main.py:69-80 | with a non-empty name and all-digit text the key ends up with old value (or 0) + int(text), in place when it existed and appended when new; otherwise the store is unchanged; other entries unchanged, keys unique, non-negativity kept |
| Inventory.AddAccumulates | main.py:74-75 | two valid adds of one name sum both parsed quantities onto the old value, and the second add does not grow the store |
| Inventory.AddThreeThenFour | main.py:74-77 | add("X","3"); add("X","4") on an empty store gives exactly [X: 7] |
| Inventory.Remove | main.py:82-88 | the key is gone, the result is the store filtered by that key (others keep their order), an absent key changes nothing, keys stay unique |
| Inventory.RemoveOther | main.py:85-86 | remove never changes another key's presence or quantity |
| Inventory.RemoveIdempotent | main.py:85-86 | removing a name twice is the same as removing it once |
| Inventory.Update | main.py:90-102 | with a non-empty name, all-digit text and an existing key the quantity becomes int(text) in place; a missing key or invalid text gives the matching diagnostic and an unchanged store |
| Inventory.UpdateAfterAdd | main.py:93-96 | after any valid add, an update of the same name succeeds and leaves exactly the new value (overwrite, not accumulate) |
| Inventory.AddThreeUpdateTen | main.py:93-96 | add("X","3"); update("X","10") on an empty store gives exactly [X: 10] |
| Inventory.SearchTerm | main.py:109 | the search term is the field's text stripped and then lower-cased |
| Inventory.Matches | main.py:115 | an entry matches when the term occurs in its lower-cased name |
| Inventory.FirstMatch | main.py:114-117 | the scan stops at the first entry whose lower-cased name contains the term; none exactly when no entry does |
| Inventory.FirstMatchAt | main.py:114-117 | an entry that matches with no match before it is the first match |
| Inventory.Search | main.py:108-120 | a found outcome carries the exact name and quantity of a stored entry |
| Inventory.SearchBlank | main.py:109-120 | the "please enter" outcome occurs exactly when the search text is all white space, whatever the store holds |
| Inventory.SearchNotFound | main.py:113-118 | "not found" occurs exactly when the term is non-blank and no entry's lower-cased name contains it |
| Inventory.SearchFindsFirst | main.py:114-117 | the reported entry is the first match in insertion order, in both directions |
| Inventory.StripLeftLower | main.py:109 | lower-casing commutes with the left strip |
| Inventory.StripRightLower | main.py:109 | lower-casing commutes with the right strip |
| Inventory.SearchTermLowerFirst | main.py:109 | strip-then-lower equals lower-then-strip |
| Inventory.SearchIgnoresCase | main.py:109-115 | two search texts with the same lower case give the same outcome on every store |
| Inventory.MatchesIgnoringCase | main.py:109-115 | an entry matches the search text exactly when the stripped text equals some window of the entry's name up to case |
| Inventory.SearchApExample | main.py:114-117 | on {Apple: 1, apricot: 2}, "ap" finds whichever entry was inserted first |
| Inventory.FoundText | main.py:116 | the label for a found entry is "Search Result: ", the name, " - Quantity: " and `str` of the quantity; it ends in a digit |
| Inventory.ResultText | main.py:116-120 | the label is one of the three texts the handler writes, all beginning "Search Result: ", and ends in a digit exactly for a found outcome |
| Inventory.ResultTextsDistinct | main.py:116-120 | the three kinds of outcome never show the same label text |
| Inventory.Step | main.py:69-120 | one button press keeps keys unique, and a search leaves the store as it was |
| Inventory.Run | main.py:69-120 | any session of presses keeps keys unique |
| Inventory.RunNonNegative | main.py:75-96 | any session starting from non-negative quantities keeps them non-negative |
| Inventory.StepKeysOrigin | main.py:69-102 | a key present after one press was present before or was just added with valid input |
| Inventory.RunKeysOrigin | main.py:69-102 | a key present after a session was present before or was added with valid input during it |
| App.ItemApp.Build | main.py:186-191 | the store is the file's contents, or empty when the file does not exist; the file mirrors the store |
| App.ItemApp.SaveItems | main.py:193-195 | the file afterwards holds exactly the current store |
| App.ItemApp.AddItem | main.py:69-80 | the new store is `Inventory.Add` of the old one; it is saved exactly when the input was valid, and the invariant is kept |
| App.ItemApp.RemoveItem | main.py:82-88 | the new store is `Inventory.Remove` of the old one; it is saved exactly when the key was present |
| App.ItemApp.UpdateItemQuantity | main.py:90-102 | the new store and the outcome are `Inventory.Update` of the old store; it is saved exactly on success |
| App.ItemApp.SearchItem | main.py:108-120 | the loop's result equals the search specification; the method changes nothing |

## Left out

- Widgets, layout, colours, the background rectangle and `_update_rect` (main.py:12-67, 123-144): presentation only.
- Clearing the input fields after an operation (main.py:78-79, 87, 97): these are UI side effects, not store state.
- Screen navigation `view_items` / `go_back` (main.py:104-106, 167-169): a switch between two screen names, owned by the screen manager.
- `update_item_table` (main.py:150-165): it draws the same ordered (name, quantity) pairs as `items`, plus a height of 40 per row. Display only.
- JSON encoding and decoding in `load_items` / `save_items` (main.py:186-195): the model assumes `items.json` holds a JSON object that maps names to integers, and models the file as that dictionary itself. An absent file gives an empty store. Malformed JSON or a file that cannot be read ends the program at start-up and is not modelled. Well-formed JSON of another shape loads without error but is outside the model: a fractional quantity such as `{"X": 1.5}` is kept, and a later add of "3" gives 4.5; a quantity written as a string such as `{"X": "3"}` makes a later add of that name raise a `TypeError` at main.py:75; a top-level array makes an add of a name it does not hold raise at main.py:77 (a list cannot be indexed by a string) and every non-blank search raise at main.py:114 (a list has no `items()`).
- App.ItemApp.SaveItems: the save always succeeds and replaces the file at once. In the code the write at main.py:194-195 runs after the in-memory change (main.py:75, 77, 86, 96). A write that fails or is interrupted leaves the store changed and the file stale or truncated, which breaks the mirror that `Valid()` promises; the model does not capture that case.
- The text of the two `print` diagnostics (main.py:100, 102): console output. Only the kind of diagnostic is kept, as the `UpdateOutcome`.
- Unicode: `isdigit`, `lower` and `strip` are modelled for ASCII only. Python's `isdigit` also accepts characters such as superscript digits, for which `int` raises; such input is outside this model.
- The initial label text and the window title (main.py:28, 174): constants of the UI.
