/**
 * The `SelectInput` combo box: a list of string options, a text field and a
 * highlighted entry, in one of three modes. Filtering, resolution of a
 * submit or an Enter key, and the highlight movement are pure functions; the
 * component itself is the class `ComboBox`, whose methods are the event
 * handlers, each followed by the effects React runs after the re-render the
 * handler causes.
 */
module SelectInput {
  import opened Wrappers
  import opened Strings

  /** `mode` prop: 'select-only', 'input-only' or 'both' (the default). */
  datatype Mode = SelectOnly | InputOnly | Both

  /** The keys the key-down handler distinguishes. */
  datatype Key = Enter | Space | ArrowUp | ArrowDown | Escape | Tab | OtherKey

  /**
   * What a submit, an Enter key or a click resolves to:
   * - `Choose(o)`: report `o` through `onChange`, show it, close the list;
   * - `ChooseMissing`: the highlighted index is not an index of the filtered
   *   list, so `undefined` is reported and shown, and the list closes;
   * - `Custom(t)`: report the typed text `t` as a custom value, close the list;
   * - `NoOutcome`: nothing happens.
   */
  datatype Outcome = Choose(option: string) | ChooseMissing | Custom(text: string) | NoOutcome

  /** One call of the `onChange` prop: `onChange(value, isCustom)`, or `onChange(undefined)`. */
  datatype Report = Report(value: string, isCustom: bool) | ReportUndefined

  /** Typing is possible, so the text filters the options and may become a custom value. */
  predicate AllowsTyping(mode: Mode)
  {
    mode != SelectOnly
  }

  // ---------------------------------------------------------------------------
  // Filtering
  // ---------------------------------------------------------------------------

  /** The option contains the typed text, ignoring case. */
  predicate Matches(option: string, text: string)
  {
    Contains(Lower(option), Lower(text))
  }

  /** `a` is `b` with some elements left out, the rest in their original order. */
  predicate IsSubsequence<T(==)>(a: seq<T>, b: seq<T>)
    decreases |b|
  {
    if b == [] then a == []
    else IsSubsequence(a, b[1..]) || (a != [] && a[0] == b[0] && IsSubsequence(a[1..], b[1..]))
  }

  lemma {:induction false} SubsequenceOfSelf<T>(s: seq<T>)
    ensures IsSubsequence(s, s)
    decreases |s|
  {
    if s != [] {
      SubsequenceOfSelf(s[1..]);
    }
  }

  /** The options that match the text, in their original order. */
  function FilterMatching(options: seq<string>, text: string): (r: seq<string>)
    ensures IsSubsequence(r, options)
    ensures forall o :: o in r <==> o in options && Matches(o, text)
    ensures forall o :: multiset(r)[o] == if Matches(o, text) then multiset(options)[o] else 0
    decreases |options|
  {
    if options == [] then []
    else
      var rest := FilterMatching(options[1..], text);
      assert options == [options[0]] + options[1..];
      if Matches(options[0], text) then [options[0]] + rest else rest
  }

  /**
   * The filter effect: with typing allowed and non-empty text, the options
   * containing the text ignoring case; otherwise every option.
   */
  function Filter(mode: Mode, options: seq<string>, text: string): (r: seq<string>)
    ensures IsSubsequence(r, options)
    ensures AllowsTyping(mode) && text != "" ==>
      forall o :: multiset(r)[o] == if Matches(o, text) then multiset(options)[o] else 0
    ensures !(AllowsTyping(mode) && text != "") ==> r == options
  {
    if AllowsTyping(mode) && text != "" then FilterMatching(options, text)
    else
      SubsequenceOfSelf(options);
      options
  }

  lemma {:induction false} SubsequenceLength<T>(a: seq<T>, b: seq<T>)
    requires IsSubsequence(a, b)
    ensures |a| <= |b|
    decreases |b|
  {
    if b != [] {
      if IsSubsequence(a, b[1..]) {
        SubsequenceLength(a, b[1..]);
      } else {
        SubsequenceLength(a[1..], b[1..]);
      }
    }
  }

  /** Showing one of the options as the text keeps that option in the filtered list. */
  lemma FilterKeepsShownOption(mode: Mode, options: seq<string>, o: string)
    requires o in options
    ensures o in Filter(mode, options, o)
  {
    if AllowsTyping(mode) && o != "" {
      ContainsSelf(Lower(o));
      assert multiset(options)[o] > 0;
    }
  }

  /** The entries the open list shows: in 'both' mode a typed text with no match is offered as an entry of its own. */
  function DisplayOptions(mode: Mode, text: string, filtered: seq<string>): (r: seq<string>)
    ensures forall o :: o in r <==> o in filtered || (mode == Both && text != "" && filtered == [] && o == text)
    ensures |r| == |filtered| + (if mode == Both && text != "" && filtered == [] then 1 else 0)
    ensures r[..|filtered|] == filtered
    ensures |r| > |filtered| ==> r[|filtered|] == text
  {
    if mode == Both && text != "" && |filtered| == 0 then filtered + [text] else filtered
  }

  /**
   * The list items and the highlight share positions (`index === highlightedIndex`):
   * a click on entry `i` of the filtered list takes the option Enter takes with
   * the highlight on `i`.
   */
  lemma ClickMatchesHighlight(mode: Mode, text: string, filtered: seq<string>, i: int)
    requires 0 <= i < |filtered|
    ensures Pick(filtered, i) == Choose(DisplayOptions(mode, text, filtered)[i])
  {
    var r := DisplayOptions(mode, text, filtered);
    assert r[..|filtered|][i] == r[i];
  }

  // ---------------------------------------------------------------------------
  // Resolution of a submit and of an Enter key
  // ---------------------------------------------------------------------------

  /** The outcome of taking entry `h` of the filtered list. */
  function Pick(filtered: seq<string>, h: int): (r: Outcome)
    requires h >= 0
    ensures r.Choose? <==> h < |filtered|
    ensures r.Choose? ==> r.option == filtered[h]
    ensures !r.Choose? ==> r == ChooseMissing
  {
    if h < |filtered| then Choose(filtered[h]) else ChooseMissing
  }

  /** The outcome of a form submit (`handleSubmit`). */
  function ResolveSubmit(mode: Mode, text: string, filtered: seq<string>, h: int): (r: Outcome)
    // with non-empty text where typing is allowed something is always chosen
    ensures AllowsTyping(mode) && text != "" ==> r != NoOutcome
    // a single match is always taken
    ensures |filtered| == 1 ==> r == Choose(filtered[0])
    // no match and non-empty text where typing is allowed: the text itself
    ensures AllowsTyping(mode) && text != "" && |filtered| == 0 ==> r == Custom(text)
    // a custom value is only ever the typed text
    ensures r.Custom? ==> AllowsTyping(mode) && text != "" && r.text == text
    // an undefined choice only comes from a highlight past the end of the list
    ensures r == ChooseMissing ==> |filtered| >= 2 && h >= |filtered|
    ensures r.Choose? ==> r.option in filtered
    // without usable text, nothing happens unless one entry is forced or highlighted
    ensures !(AllowsTyping(mode) && text != "") ==>
      (r == NoOutcome <==> |filtered| != 1 && (|filtered| == 0 || h < 0))
    // several matches: the highlighted entry if there is one, else the typed text where typing is allowed
    ensures AllowsTyping(mode) && text != "" && |filtered| >= 2 ==> r == (if h >= 0 then Pick(filtered, h) else Custom(text))
    ensures !(AllowsTyping(mode) && text != "") && |filtered| >= 2 && h >= 0 ==> r == Pick(filtered, h)
  {
    if AllowsTyping(mode) && text != "" then
      if |filtered| == 0 then Custom(text)
      else if |filtered| == 1 then Choose(filtered[0])
      else if h >= 0 then Pick(filtered, h)
      else Custom(text)
    else if |filtered| == 1 then Choose(filtered[0])
    else if |filtered| > 0 && h >= 0 then Pick(filtered, h)
    else NoOutcome
  }

  /** The outcome of the Enter key on the open list (`handleKeyDown`, case 'Enter'). */
  function ResolveEnter(mode: Mode, text: string, filtered: seq<string>, h: int): (r: Outcome)
    ensures AllowsTyping(mode) && text != "" ==> r != NoOutcome
    ensures AllowsTyping(mode) && text != "" && |filtered| == 0 ==> r == Custom(text)
    ensures r.Custom? ==> AllowsTyping(mode) && text != "" && r.text == text
    // a highlight is taken before the single-match rule, without a bounds check
    ensures h >= 0 && !(AllowsTyping(mode) && text != "" && |filtered| == 0) ==> r == Pick(filtered, h)
    ensures r.Choose? ==> r.option in filtered
    ensures !(AllowsTyping(mode) && text != "") ==>
      (r == NoOutcome <==> h < 0 && |filtered| != 1)
    // without a highlight, a single entry is taken, and several give the typed text where typing is allowed
    ensures h < 0 && |filtered| == 1 ==> r == Choose(filtered[0])
    ensures AllowsTyping(mode) && text != "" && |filtered| >= 2 && h < 0 ==> r == Custom(text)
  {
    if AllowsTyping(mode) && text != "" then
      if |filtered| == 0 then Custom(text)
      else if h >= 0 then Pick(filtered, h)
      else if |filtered| == 1 then Choose(filtered[0])
      else Custom(text)
    else if h >= 0 then Pick(filtered, h)
    else if |filtered| == 1 then Choose(filtered[0])
    else NoOutcome
  }

  /** With no highlight or a highlight inside the list, Enter and submit agree. */
  lemma EnterAgreesWithSubmit(mode: Mode, text: string, filtered: seq<string>, h: int)
    requires h == -1 || 0 <= h < |filtered|
    ensures ResolveEnter(mode, text, filtered, h) == ResolveSubmit(mode, text, filtered, h)
  {
  }

  /** With a highlight past the end of a one-entry list, submit takes the entry but Enter reports `undefined`. */
  lemma EnterDivergesFromSubmit(mode: Mode, text: string, option: string, h: int)
    requires AllowsTyping(mode) && text != "" && h >= 1
    ensures ResolveSubmit(mode, text, [option], h) == Choose(option)
    ensures ResolveEnter(mode, text, [option], h) == ChooseMissing
  {
  }

  /** Enter on an empty list with the highlight at 0 (where ArrowUp puts it) reports `undefined`; submit does nothing. */
  lemma EnterOnEmptyListIndexesOutOfRange(mode: Mode, text: string)
    requires !(AllowsTyping(mode) && text != "")
    ensures ResolveEnter(mode, text, [], 0) == ChooseMissing
    ensures ResolveSubmit(mode, text, [], 0) == NoOutcome
  {
  }

  /** What `onChange` receives for an outcome, if it is called at all. */
  function OutcomeReport(o: Outcome): (r: Option<Report>)
    ensures r.None? <==> o == NoOutcome
  {
    match o
    case Choose(option) => Some(Report(option, false))
    case ChooseMissing => Some(ReportUndefined)
    case Custom(text) => Some(Report(text, true))
    case NoOutcome => None
  }

  /**
   * The text shown after an outcome. An `undefined` option is stored as the
   * empty string. The truthiness tests on the text cannot tell the two apart;
   * the click handler's `option === inputValue` is false for both, as no
   * option is empty; and where the text is the input box's value, the
   * value-sync effect sets it to "" once the parent stores the `undefined` it
   * was sent.
   */
  function TextAfter(o: Outcome, text: string): string
  {
    match o
    case Choose(option) => option
    case ChooseMissing => ""
    case Custom(_) => text
    case NoOutcome => text
  }

  // ---------------------------------------------------------------------------
  // Highlight movement
  // ---------------------------------------------------------------------------

  /** ArrowUp: from no highlight to the last entry, otherwise one up, never below 0. */
  function ArrowUpIndex(h: int, len: nat): (r: int)
    ensures len > 0 && -1 <= h < len ==> 0 <= r < len
    ensures len == 0 && -1 <= h <= 1 ==> r == 0
    ensures h == -1 && len > 0 ==> r == len - 1
    ensures h >= 1 ==> r == h - 1
  {
    if h == -1 && len > 0 then len - 1 else if h - 1 > 0 then h - 1 else 0
  }

  /** ArrowDown: from the last entry to no highlight, otherwise one down, never past the last entry. */
  function ArrowDownIndex(h: int, len: nat): (r: int)
    ensures -1 <= h < len ==> -1 <= r < len
    ensures h == len - 1 ==> r == -1
    ensures -1 <= h < len - 1 ==> r == h + 1
    // a highlight at or past the end of the list (left there after the list shrank) goes to the last entry
    ensures h != len - 1 ==> r == (if h + 1 < len then h + 1 else len - 1)
    ensures len > 0 && h >= len ==> r == len - 1
  {
    if h == len - 1 then -1 else if len - 1 < h + 1 then len - 1 else h + 1
  }

  /** The highlight after pressing ArrowDown `k` times, starting from `h`. */
  function DownPresses(h: int, len: nat, k: nat): int
    decreases k
  {
    if k == 0 then h else DownPresses(ArrowDownIndex(h, len), len, k - 1)
  }

  /** The highlight after pressing ArrowUp `k` times, starting from `h`. */
  function UpPresses(h: int, len: nat, k: nat): int
    decreases k
  {
    if k == 0 then h else UpPresses(ArrowUpIndex(h, len), len, k - 1)
  }

  /** From no highlight, ArrowDown walks the list in order and wraps back to no highlight after `len + 1` presses. */
  lemma {:induction false} ArrowDownCycles(len: nat, k: nat)
    requires k <= len + 1
    ensures DownPresses(-1, len, k) == if k <= len then k - 1 else -1
    decreases k
  {
    if k > 0 {
      ArrowDownCycles(len, k - 1);
      DownPressesLast(-1, len, k);
    }
  }

  lemma {:induction false} DownPressesLast(h: int, len: nat, k: nat)
    requires k > 0
    ensures DownPresses(h, len, k) == ArrowDownIndex(DownPresses(h, len, k - 1), len)
    decreases k
  {
    if k > 1 {
      DownPressesLast(ArrowDownIndex(h, len), len, k - 1);
    }
  }

  /** ArrowUp does not wrap: from no highlight it goes to the last entry and then up, stopping at the first. */
  lemma {:induction false} ArrowUpStopsAtTop(len: nat, k: nat)
    requires len > 0 && k > 0
    ensures UpPresses(-1, len, k) == if k <= len then len - k else 0
    decreases k
  {
    if k > 1 {
      ArrowUpStopsAtTop(len, k - 1);
      UpPressesLast(-1, len, k);
    }
  }

  lemma {:induction false} UpPressesLast(h: int, len: nat, k: nat)
    requires k > 0
    ensures UpPresses(h, len, k) == ArrowUpIndex(UpPresses(h, len, k - 1), len)
    decreases k
  {
    if k > 1 {
      UpPressesLast(ArrowUpIndex(h, len), len, k - 1);
    }
  }

  /** `options.findIndex(opt => opt === v)`. */
  function IndexOf(options: seq<string>, v: string): (r: int)
    ensures r == -1 <==> v !in options
    ensures r != -1 ==> 0 <= r < |options| && options[r] == v && v !in options[..r]
    decreases |options|
  {
    if options == [] then -1
    else if options[0] == v then 0
    else
      var i := IndexOf(options[1..], v);
      if i == -1 then -1
      else
        assert options[..i + 1] == [options[0]] + options[1..][..i];
        i + 1
  }

  // ---------------------------------------------------------------------------
  // The component
  // ---------------------------------------------------------------------------

  class ComboBox {
    const mode: Mode
    const options: seq<string>
    /** The confirmed value, the `value` prop the parent passes. */
    var value: string
    var isOpen: bool
    var highlightedIndex: int
    var inputValue: string
    var filteredOptions: seq<string>

    /**
     * The filter effect has run for the current text, the highlight is never
     * below -1, and on an empty filtered list it is -1 or 0.
     */
    ghost predicate Valid()
      reads this
    {
      && highlightedIndex >= -1
      && filteredOptions == Filter(mode, options, inputValue)
      && (|filteredOptions| == 0 ==> highlightedIndex <= 0)
    }

    /** Mounting: the initial state followed by the value-sync and filter effects. */
    constructor (mode: Mode, options: seq<string>, value: string)
      ensures Valid()
      ensures this.mode == mode && this.options == options && this.value == value
      ensures !isOpen && highlightedIndex == -1
      ensures inputValue == if value != "" && value in options then value else ""
    {
      this.mode := mode;
      this.options := options;
      this.value := value;
      isOpen := false;
      highlightedIndex := -1;
      var text := if value != "" && value in options then value else "";
      inputValue := text;
      filteredOptions := Filter(mode, options, text);
    }

    /** The filtered list is one of the option lists, so it is empty only if there are no options. */
    lemma FilteredWithinOptions()
      requires Valid()
      ensures |filteredOptions| <= |options|
    {
      SubsequenceLength(filteredOptions, options);
    }

    /** Typing `text` in the field (`handleInputChange`). */
    method Type(text: string) returns (report: Option<Report>)
      requires Valid()
      modifies this
      ensures Valid()
      ensures inputValue == text && isOpen
      ensures highlightedIndex == if text != "" then 0 else -1
      ensures value == old(value)
      ensures report == Some(Report(text, false))
    {
      inputValue := text;
      isOpen := true;
      report := Some(Report(text, false));
      highlightedIndex := if text != "" then 0 else -1;
      filteredOptions := Filter(mode, options, inputValue);
    }

    /**
     * The clear button (`handleClearInput`): empty text, report "", close,
     * and focus the text field. The click took the focus to the button, so
     * in 'both' mode the field's `onFocus` opens the list again; the last of
     * the two updates wins. Only the two modes with a text field render the
     * button.
     */
    method Clear() returns (report: Option<Report>)
      requires Valid() && mode != SelectOnly
      modifies this
      ensures Valid()
      ensures inputValue == "" && isOpen == (mode == Both) && filteredOptions == options
      ensures highlightedIndex == old(highlightedIndex) && value == old(value)
      ensures report == Some(Report("", false))
    {
      FilteredWithinOptions();
      inputValue := "";
      report := Some(Report("", false));
      isOpen := false;
      if mode == Both {
        isOpen := true;
      }
      filteredOptions := Filter(mode, options, inputValue);
    }

    /** Carry out a resolved outcome and run the filter effect. */
    method Apply(o: Outcome) returns (report: Option<Report>)
      requires Valid()
      requires o.Choose? ==> o.option in options
      requires o == ChooseMissing ==> highlightedIndex >= |filteredOptions|
      modifies this
      ensures Valid()
      ensures report == OutcomeReport(o)
      ensures inputValue == TextAfter(o, old(inputValue))
      ensures isOpen == (old(isOpen) && o == NoOutcome)
      ensures highlightedIndex == old(highlightedIndex) && value == old(value)
    {
      FilteredWithinOptions();
      report := OutcomeReport(o);
      match o {
        case Choose(option) =>
          inputValue := option;
          isOpen := false;
          FilterKeepsShownOption(mode, options, option);
        case ChooseMissing =>
          inputValue := "";
          isOpen := false;
        case Custom(_) =>
          isOpen := false;
        case NoOutcome =>
      }
      filteredOptions := Filter(mode, options, inputValue);
    }

    /** Every entry of the filtered list is an option. */
    lemma FilteredAreOptions(o: string)
      requires Valid() && o in filteredOptions
      ensures o in options
    {
      if AllowsTyping(mode) && inputValue != "" {
        assert multiset(filteredOptions)[o] > 0;
      }
    }

    /** A form submit (`handleSubmit`). */
    method Submit() returns (report: Option<Report>)
      requires Valid() && mode != SelectOnly
      modifies this
      ensures Valid()
      ensures var o := ResolveSubmit(mode, old(inputValue), old(filteredOptions), old(highlightedIndex));
        && report == OutcomeReport(o)
        && inputValue == TextAfter(o, old(inputValue))
        && isOpen == (old(isOpen) && o == NoOutcome)
      ensures highlightedIndex == old(highlightedIndex) && value == old(value)
    {
      var o := ResolveSubmit(mode, inputValue, filteredOptions, highlightedIndex);
      if o.Choose? { FilteredAreOptions(o.option); }
      report := Apply(o);
    }

    /** A key press (`handleKeyDown`). */
    method KeyDown(key: Key) returns (report: Option<Report>)
      requires Valid()
      modifies this
      ensures Valid()
      ensures value == old(value)
      // while closed, only Enter and space change anything: they open the list
      ensures !old(isOpen) ==>
        && report == None
        && isOpen == (key == Enter || key == Space)
        && inputValue == old(inputValue) && highlightedIndex == old(highlightedIndex)
      ensures old(isOpen) && key == ArrowUp ==>
        && highlightedIndex == ArrowUpIndex(old(highlightedIndex), |old(filteredOptions)|)
        && isOpen && inputValue == old(inputValue) && report == None
      ensures old(isOpen) && key == ArrowDown ==>
        && highlightedIndex == ArrowDownIndex(old(highlightedIndex), |old(filteredOptions)|)
        && isOpen && inputValue == old(inputValue) && report == None
      ensures old(isOpen) && key == Enter ==>
        var o := ResolveEnter(mode, old(inputValue), old(filteredOptions), old(highlightedIndex));
        && report == OutcomeReport(o)
        && inputValue == TextAfter(o, old(inputValue))
        && isOpen == (o == NoOutcome)
        && highlightedIndex == old(highlightedIndex)
      // Escape closes and shows the confirmed value again when it is one of the options
      ensures old(isOpen) && key == Escape ==>
        && !isOpen && report == None && highlightedIndex == old(highlightedIndex)
        && inputValue == if value != "" && value in options then value else old(inputValue)
      ensures old(isOpen) && (key == Tab || key == Space || key == OtherKey) ==>
        && isOpen == (key != Tab) && report == None
        && inputValue == old(inputValue) && highlightedIndex == old(highlightedIndex)
    {
      report := None;
      if !isOpen {
        if key == Enter || key == Space {
          isOpen := true;
        }
        return;
      }
      var len := |filteredOptions|;
      match key {
        case ArrowUp =>
          highlightedIndex := ArrowUpIndex(highlightedIndex, len);
        case ArrowDown =>
          highlightedIndex := ArrowDownIndex(highlightedIndex, len);
        case Enter =>
          var o := ResolveEnter(mode, inputValue, filteredOptions, highlightedIndex);
          if o.Choose? { FilteredAreOptions(o.option); }
          report := Apply(o);
        case Escape =>
          FilteredWithinOptions();
          isOpen := false;
          if value != "" && value in options {
            inputValue := value;
            FilterKeepsShownOption(mode, options, value);
          }
          filteredOptions := Filter(mode, options, inputValue);
        case Tab =>
          isOpen := false;
        case Space =>
        case OtherKey =>
      }
    }

    /**
     * The Enter key as the browser delivers it in a mode with a form. The
     * form has one text field and no submit button, so Enter submits it
     * unless the key handler prevents that, which it does only while the list
     * is open. On a closed list, Enter opens it and the submit handler then
     * resolves the text, which is the only way `handleSubmit` runs.
     */
    method PressEnter() returns (report: Option<Report>)
      requires Valid() && mode != SelectOnly
      modifies this
      ensures Valid()
      ensures highlightedIndex == old(highlightedIndex) && value == old(value)
      ensures old(isOpen) ==>
        var o := ResolveEnter(mode, old(inputValue), old(filteredOptions), old(highlightedIndex));
        && report == OutcomeReport(o)
        && inputValue == TextAfter(o, old(inputValue))
        && isOpen == (o == NoOutcome)
      ensures !old(isOpen) ==>
        var o := ResolveSubmit(mode, old(inputValue), old(filteredOptions), old(highlightedIndex));
        && report == OutcomeReport(o)
        && inputValue == TextAfter(o, old(inputValue))
        && isOpen == (o == NoOutcome)
    {
      var wasOpen := isOpen;
      report := KeyDown(Enter);
      if !wasOpen {
        report := Submit();
      }
    }

    /** A click on entry `i` of the shown list (the `onClick` of each list item). */
    method ClickOption(i: nat) returns (report: Option<Report>)
      requires Valid()
      requires mode != InputOnly && i < |DisplayOptions(mode, inputValue, filteredOptions)|
      modifies this
      ensures Valid()
      ensures var option := DisplayOptions(mode, old(inputValue), old(filteredOptions))[i];
        && report == Some(Report(option, option == old(inputValue)))
        && inputValue == option
      ensures !isOpen && highlightedIndex == old(highlightedIndex) && value == old(value)
    {
      var shown := DisplayOptions(mode, inputValue, filteredOptions);
      var option := shown[i];
      report := Some(Report(option, option == inputValue));
      if option in filteredOptions {
        FilteredAreOptions(option);
        FilterKeepsShownOption(mode, options, option);
      }
      inputValue := option;
      isOpen := false;
      filteredOptions := Filter(mode, options, inputValue);
    }

    /** A click on the field or on the dropdown indicator: toggles the list. */
    method Toggle()
      requires Valid()
      modifies this`isOpen
      ensures Valid() && isOpen == !old(isOpen)
    {
      isOpen := !isOpen;
    }

    /** A click on the 'both'-mode field, or the text field gaining focus: opens the list, never closes it. */
    method Open()
      requires Valid()
      modifies this`isOpen
      ensures Valid() && isOpen
    {
      isOpen := true;
    }

    /** A touch on the select-only field (`handleTouchInteraction`): opening highlights the confirmed value. */
    method Touch()
      requires Valid() && mode == SelectOnly
      modifies this`isOpen, this`highlightedIndex
      ensures Valid() && isOpen == !old(isOpen)
      ensures highlightedIndex == if old(isOpen) then old(highlightedIndex) else IndexOf(options, value)
    {
      if !isOpen {
        highlightedIndex := IndexOf(options, value);
      }
      isOpen := !isOpen;
    }

    /**
     * A touch on the select-only dropdown indicator. The indicator's own
     * handler queues the negation of the rendered `isOpen`; the touch then
     * reaches the field's `handleTouchInteraction`, whose functional update
     * negates that queued value again. The list therefore stays as it was,
     * while a closed list still gets the confirmed value highlighted.
     */
    method TouchIndicator()
      requires Valid() && mode == SelectOnly
      modifies this`isOpen, this`highlightedIndex
      ensures Valid() && isOpen == old(isOpen)
      ensures highlightedIndex == if old(isOpen) then old(highlightedIndex) else IndexOf(options, value)
    {
      var rendered := isOpen;
      isOpen := !rendered;
      if !rendered {
        highlightedIndex := IndexOf(options, value);
      }
      isOpen := !isOpen;
    }

    /**
     * The parent passes `v` as the `value` prop (the value-sync effect): the
     * text follows a value that is one of the options, is cleared for an empty
     * value, and is left alone for a custom value.
     */
    method SyncValue(v: string)
      requires Valid()
      modifies this
      ensures Valid()
      ensures value == v
      ensures inputValue == if v == "" then "" else if v in options then v else old(inputValue)
      ensures isOpen == old(isOpen) && highlightedIndex == old(highlightedIndex)
    {
      value := v;
      FilteredWithinOptions();
      if v != "" {
        if v in options {
          inputValue := v;
          FilterKeepsShownOption(mode, options, v);
        }
      } else {
        inputValue := "";
      }
      filteredOptions := Filter(mode, options, inputValue);
    }
  }

  // ---------------------------------------------------------------------------
  // Event sequences on the component
  // ---------------------------------------------------------------------------

  /**
   * The name field (typing only, no options): typing a letter, deleting it,
   * ArrowUp and Enter report `undefined`, because ArrowUp on the empty list
   * leaves the highlight at 0.
   */
  method NameFieldReportsUndefined() returns (report: Option<Report>)
    ensures report == Some(ReportUndefined)
  {
    var box := new ComboBox(InputOnly, [], "");
    var r := box.Type("a");
    r := box.Type("");
    r := box.KeyDown(ArrowUp);
    assert box.highlightedIndex == 0;
    report := box.KeyDown(Enter);
  }

  lemma HapMatchesHappy()
    ensures Matches("Happy", "hap")
  {
    assert Lower("Happy")[0..3] == Lower("hap");
    assert OccursAt(Lower("Happy"), Lower("hap"), 0);
    ContainsIff(Lower("Happy"), Lower("hap"));
  }

  lemma HapMissesSad()
    ensures !Matches("Sad", "hap")
  {
    ContainsIff(Lower("Sad"), Lower("hap"));
    assert Lower("Sad")[0] == 's' && Lower("hap")[0] == 'h';
    assert forall j :: !OccursAt(Lower("Sad"), Lower("hap"), j);
  }

  /**
   * With one matching option: typing "hap", closing the list with Escape and
   * pressing Enter submits the form, which selects that option.
   */
  method SubmitSelectsSingleMatch() returns (report: Option<Report>, shown: string)
    ensures report == Some(Report("Happy", false)) && shown == "Happy"
  {
    var box := new ComboBox(Both, ["Happy", "Sad"], "");
    var r := box.Type("hap");
    HapMatchesHappy();
    HapMissesSad();
    assert ["Happy", "Sad"][1..] == ["Sad"] && ["Sad"][1..] == [];
    assert box.filteredOptions == ["Happy"];
    r := box.KeyDown(Escape);
    report := box.PressEnter();
    shown := box.inputValue;
  }
}
