/**
 * The input screen: the user's attributes are edited field by field, the
 * required fields are checked when the start button is pressed, and a valid
 * form is queued as a new job (its timestamp appended to the job queue, its
 * attributes stored under a key made from that timestamp). The loading and
 * result screens take the last queued job as the active one.
 *
 * The browser's key-value store is modelled by its two parts this screen
 * uses: the parsed job queue (an absent entry reads as the empty queue) and
 * the stored attribute records, by key.
 */
module InputPage {
  import opened Wrappers
  import opened Strings
  import opened Comfy

  import SelectInput

  /** The fields of the attribute record. */
  datatype Field = Name | Mbti | Mood | Zodiac | Alcohol

  /**
   * What a text field holds: a string, or `undefined` (what the combo box
   * passes to `onChange` when nothing is chosen).
   */
  datatype TextValue = Str(text: string) | Undefined

  /** A value handed to `handleInputChange`. */
  datatype FieldValue = Text(value: TextValue) | Number(number: int)

  /** The form's attributes: four text fields that may be `undefined`, and the alcohol percentage. */
  datatype UserData = UserData(name: TextValue, mbti: TextValue, mood: TextValue, zodiac: TextValue, alcohol: int)

  /** The error flags shown under the fields, by field. */
  type Errors = map<Field, bool>

  /** The attributes of a fresh form. */
  const InitialUserData: UserData := UserData(Str(""), Str(""), Str(""), Str(""), 10)

  // ---------------------------------------------------------------------------
  // Field access
  // ---------------------------------------------------------------------------

  function Get(d: UserData, f: Field): FieldValue
  {
    match f
    case Name => Text(d.name)
    case Mbti => Text(d.mbti)
    case Mood => Text(d.mood)
    case Zodiac => Text(d.zodiac)
    case Alcohol => Number(d.alcohol)
  }

  /** The value has the kind the field holds. */
  predicate Fits(f: Field, v: FieldValue)
  {
    if f == Alcohol then v.Number? else v.Text?
  }

  /** `{ ...d, [f]: v }`: the record with one field replaced. */
  function WithField(d: UserData, f: Field, v: FieldValue): (r: UserData)
    requires Fits(f, v)
    ensures Get(r, f) == v
    ensures forall g :: g != f ==> Get(r, g) == Get(d, g)
  {
    match f
    case Name => d.(name := v.value)
    case Mbti => d.(mbti := v.value)
    case Mood => d.(mood := v.value)
    case Zodiac => d.(zodiac := v.value)
    case Alcohol => d.(alcohol := v.number)
  }

  /** Writing back a field's own value changes nothing. */
  lemma WithOwnValue(d: UserData, f: Field)
    ensures Fits(f, Get(d, f)) && WithField(d, f, Get(d, f)) == d
  {
  }

  /** Two edits of the same field: the later one wins. */
  lemma LaterEditWins(d: UserData, f: Field, v: FieldValue, w: FieldValue)
    requires Fits(f, v) && Fits(f, w)
    ensures WithField(WithField(d, f, v), f, w) == WithField(d, f, w)
  {
  }

  /** The value the name box's `onChange` hands on: its string, or `undefined`. */
  function Forwarded(report: SelectInput.Report): (r: FieldValue)
    ensures Fits(Name, r)
    ensures r == Text(Undefined) <==> report.ReportUndefined?
    ensures report.Report? ==> r == Text(Str(report.value))
  {
    match report
    case Report(value, _) => Text(Str(value))
    case ReportUndefined => Text(Undefined)
  }

  // ---------------------------------------------------------------------------
  // Required-field check
  // ---------------------------------------------------------------------------

  /** JavaScript truthiness of a text field: defined and not empty. */
  predicate Truthy(v: TextValue)
  {
    v.Str? && v.text != ""
  }

  /** A field the check flags: the name when it trims to nothing, the three choices when falsy. */
  predicate IsMissing(d: UserData, f: Field)
    requires d.name.Str?
  {
    match f
    case Name => Trim(d.name.text) == ""
    case Mbti => !Truthy(d.mbti)
    case Mood => !Truthy(d.mood)
    case Zodiac => !Truthy(d.zodiac)
    case Alcohol => false
  }

  /** No field is missing: the name holds more than whitespace and the three choices are set. */
  predicate Complete(d: UserData)
  {
    d.name.Str? && Trim(d.name.text) != "" && Truthy(d.mbti) && Truthy(d.mood) && Truthy(d.zodiac)
  }

  /** The attributes of a complete form, as the job record stores them. */
  function AsRequest(d: UserData): (r: GenerateRequest)
    requires Complete(d)
    ensures Str(r.name) == d.name && Str(r.mbti) == d.mbti && Str(r.mood) == d.mood && Str(r.zodiac) == d.zodiac
    ensures r.alcohol == d.alcohol
  {
    GenerateRequest(d.mbti.text, d.zodiac.text, d.mood.text, d.name.text, d.alcohol)
  }

  /**
   * The error flags `validateForm` computes, once the name is a string:
   * `true` for every missing field, no entry for the others.
   */
  function RequiredFieldErrors(d: UserData): (r: Errors)
    requires d.name.Str?
    ensures Name in r <==> Trim(d.name.text) == ""
    ensures Mbti in r <==> !Truthy(d.mbti)
    ensures Mood in r <==> !Truthy(d.mood)
    ensures Zodiac in r <==> !Truthy(d.zodiac)
    ensures Alcohol !in r
    ensures forall f :: f in r ==> r[f]
  {
    map f | f in {Name, Mbti, Mood, Zodiac, Alcohol} && IsMissing(d, f) :: true
  }

  /** The flags are determined by which fields are missing. */
  lemma FlagsDetermined(d: UserData, m: Errors)
    requires d.name.Str?
    requires Name in m <==> Trim(d.name.text) == ""
    requires Mbti in m <==> !Truthy(d.mbti)
    requires Mood in m <==> !Truthy(d.mood)
    requires Zodiac in m <==> !Truthy(d.zodiac)
    requires Alcohol !in m
    requires forall f :: f in m ==> m[f]
    ensures m == RequiredFieldErrors(d)
  {
    var r := RequiredFieldErrors(d);
    forall f ensures f in m <==> f in r {
      match f
      case Name =>
      case Mbti =>
      case Mood =>
      case Zodiac =>
      case Alcohol =>
    }
  }

  /** The form is valid exactly when no field is missing. */
  lemma {:induction false} NoErrorsIffComplete(d: UserData)
    requires d.name.Str?
    ensures |RequiredFieldErrors(d)| == 0 <==> Complete(d)
  {
    var r := RequiredFieldErrors(d);
    if Complete(d) {
      assert forall f :: f !in r by {
        forall f ensures f !in r {
          match f
          case Name =>
          case Mbti =>
          case Mood =>
          case Zodiac =>
          case Alcohol =>
        }
      }
      assert r.Keys == {};
    } else {
      var f := if Trim(d.name.text) == "" then Name else if !Truthy(d.mbti) then Mbti else if !Truthy(d.mood) then Mood else Zodiac;
      assert f in r.Keys;
    }
  }

  /** A name made only of whitespace (or empty) is flagged. */
  lemma WhitespaceNameFlagged(d: UserData)
    requires d.name.Str?
    ensures Name in RequiredFieldErrors(d) <==> forall i :: 0 <= i < |d.name.text| ==> IsWhitespace(d.name.text[i])
  {
    TrimEmptyIff(d.name.text);
  }

  /** An `undefined` choice is flagged like an empty one. */
  lemma UndefinedChoiceFlagged(d: UserData)
    requires d.name.Str?
    ensures d.mbti == Undefined ==> Mbti in RequiredFieldErrors(d) && !Complete(d)
    ensures d.mood == Undefined ==> Mood in RequiredFieldErrors(d) && !Complete(d)
    ensures d.zodiac == Undefined ==> Zodiac in RequiredFieldErrors(d) && !Complete(d)
  {
  }

  /** `prev => ({ ...prev, [f]: false })`, applied only when the field's flag is set. */
  function ClearedError(errors: Errors, f: Field): (r: Errors)
    ensures r.Keys == errors.Keys
    ensures f in r ==> !r[f]
    ensures forall g :: g in r && g != f ==> r[g] == errors[g]
  {
    if f in errors && errors[f] then errors[f := false] else errors
  }

  // ---------------------------------------------------------------------------
  // Job queue
  // ---------------------------------------------------------------------------

  /** The key the attributes of the job started at `time` are stored under. */
  function RecordKey(time: int): string
  {
    "userData-" + IntToString(time)
  }

  /** The key is the prefix followed by text that reads back as the time. */
  lemma RecordKeyReadsBack(time: int)
    ensures var k := RecordKey(time);
      |k| > 9 && k[..9] == "userData-" && ParseInt(k[9..]) == Some(time)
  {
    IntToStringRoundTrip(time);
    assert RecordKey(time)[9..] == IntToString(time);
  }

  /** Jobs started at different times are stored under different keys. */
  lemma RecordKeyInjective(t1: int, t2: int)
    requires RecordKey(t1) == RecordKey(t2)
    ensures t1 == t2
  {
    RecordKeyReadsBack(t1);
    RecordKeyReadsBack(t2);
  }

  /** The job the loading and result screens act on: the last one queued (none for an empty queue). */
  function ActiveJob(queue: seq<int>): (r: Option<int>)
    ensures r.None? <==> queue == []
    ensures r.Some? ==> r.value in queue
  {
    if queue == [] then None else Some(queue[|queue| - 1])
  }

  /** The stored attributes of the active job, if it has any. */
  function ActiveRecord(queue: seq<int>, records: map<string, GenerateRequest>): Option<GenerateRequest>
  {
    match ActiveJob(queue)
    case None => None
    case Some(t) => if RecordKey(t) in records then Some(records[RecordKey(t)]) else None
  }

  /** Queuing a job and storing its record makes it the active job, with exactly those attributes. */
  lemma StartedJobIsActive(queue: seq<int>, records: map<string, GenerateRequest>, time: int, d: GenerateRequest)
    ensures ActiveJob(queue + [time]) == Some(time)
    ensures ActiveRecord(queue + [time], records[RecordKey(time) := d]) == Some(d)
  {
  }

  /** Storing a job's record leaves the records of jobs started at other times as they were. */
  lemma OtherRecordsKept(records: map<string, GenerateRequest>, time: int, d: GenerateRequest, other: int)
    requires other != time
    ensures var recs := records[RecordKey(time) := d];
      (RecordKey(other) in recs <==> RecordKey(other) in records)
      && (RecordKey(other) in records ==> recs[RecordKey(other)] == records[RecordKey(other)])
  {
    if RecordKey(other) == RecordKey(time) {
      RecordKeyInjective(other, time);
    }
  }

  // ---------------------------------------------------------------------------
  // The screen's state and its handlers
  // ---------------------------------------------------------------------------

  /** What `validateForm` does: returns whether the form is complete, or throws on an `undefined` name. */
  datatype Validation = Checked(complete: bool) | NameTypeError

  class InputForm {
    var userData: UserData
    var errors: Errors
    /** The job queue as stored; an absent entry reads as the empty queue. */
    var queue: seq<int>
    /** The stored attribute records, by key. */
    var records: map<string, GenerateRequest>

    constructor(storedQueue: seq<int>, storedRecords: map<string, GenerateRequest>)
      ensures userData == InitialUserData && errors == map[]
      ensures queue == storedQueue && records == storedRecords
    {
      userData := InitialUserData;
      errors := map[];
      queue := storedQueue;
      records := storedRecords;
    }

    /**
     * `validateForm`: flags the missing fields, replacing the previous flags,
     * and reports whether none is missing. An `undefined` name has no `trim`:
     * the call throws a `TypeError` before any flag is set.
     */
    method ValidateForm() returns (result: Validation)
      modifies this`errors
      ensures result == NameTypeError <==> userData.name.Undefined?
      ensures result == NameTypeError ==> errors == old(errors)
      ensures result.Checked? ==> errors == RequiredFieldErrors(userData) && (result.complete <==> Complete(userData))
    {
      var d := userData;
      if d.name.Undefined? {
        return NameTypeError;
      }
      var newErrors: Errors := map[];
      if Trim(d.name.text) == "" {
        newErrors := newErrors[Name := true];
      }
      if !Truthy(d.mbti) {
        newErrors := newErrors[Mbti := true];
      }
      if !Truthy(d.mood) {
        newErrors := newErrors[Mood := true];
      }
      if !Truthy(d.zodiac) {
        newErrors := newErrors[Zodiac := true];
      }
      FlagsDetermined(d, newErrors);
      NoErrorsIffComplete(d);
      errors := newErrors;
      result := Checked(|newErrors| == 0);
    }

    /** `handleInputChange`: sets one field, and clears that field's flag if it was set. */
    method HandleInputChange(f: Field, v: FieldValue)
      requires Fits(f, v)
      modifies this`userData, this`errors
      ensures userData == WithField(old(userData), f, v)
      ensures errors == ClearedError(old(errors), f)
    {
      userData := WithField(userData, f, v);
      if f in errors && errors[f] {
        errors := errors[f := false];
      }
    }

    /**
     * `handleStart`: when the form is complete, appends the start time to the
     * queue and stores the attributes under that time's key, and the screen
     * moves on; when it is not, only the flags change; when the name is
     * `undefined`, the handler throws and nothing changes.
     */
    method HandleStart(time: int) returns (navigated: bool, threw: bool)
      modifies this`errors, this`queue, this`records
      ensures threw <==> userData.name.Undefined?
      ensures threw ==> errors == old(errors)
      ensures !threw ==> errors == RequiredFieldErrors(userData)
      ensures navigated <==> Complete(userData)
      ensures navigated ==> queue == old(queue) + [time] && records == old(records)[RecordKey(time) := AsRequest(userData)]
      ensures navigated ==> ActiveRecord(queue, records) == Some(AsRequest(userData))
      ensures !navigated ==> queue == old(queue) && records == old(records)
    {
      var result := ValidateForm();
      threw := result == NameTypeError;
      navigated := result == Checked(true);
      if navigated {
        var d := AsRequest(userData);
        queue := queue + [time];
        records := records[RecordKey(time) := d];
        StartedJobIsActive(old(queue), old(records), time, d);
      }
    }
  }

  /** A fresh form with its four text fields filled starts a job, which becomes the active one. */
  method TestAttributesStart(time: int) returns (navigated: bool, job: Option<int>)
    ensures navigated && job == Some(time)
  {
    var form := new InputForm([], map[]);
    form.HandleInputChange(Name, Text(Str("测试")));
    form.HandleInputChange(Mbti, Text(Str("ESFP - 表演者")));
    form.HandleInputChange(Mood, Text(Str("开心")));
    form.HandleInputChange(Zodiac, Text(Str("天蝎座")));
    form.HandleInputChange(Alcohol, Number(40));
    assert Trim("测试") != "" by {
      TrimEmptyIff("测试");
      assert !IsWhitespace("测试"[0]);
    }
    var threw;
    navigated, threw := form.HandleStart(time);
    job := ActiveJob(form.queue);
  }

  /** A name of spaces alone blocks the start, flags the name and queues nothing. */
  method BlankNameBlocksStart(time: int) returns (navigated: bool, nameFlagged: bool, queued: nat)
    ensures !navigated && nameFlagged && queued == 0
  {
    var form := new InputForm([], map[]);
    form.HandleInputChange(Name, Text(Str("  ")));
    form.HandleInputChange(Mbti, Text(Str("ESFP - 表演者")));
    form.HandleInputChange(Mood, Text(Str("开心")));
    form.HandleInputChange(Zodiac, Text(Str("天蝎座")));
    assert Trim("  ") == "" by {
      TrimEmptyIff("  ");
      assert "  "[0] == ' ' && "  "[1] == ' ';
    }
    var threw;
    navigated, threw := form.HandleStart(time);
    nameFlagged := Name in form.errors;
    queued := |form.queue|;
  }

  /**
   * The name box empties and then reports `undefined` (see
   * `SelectInput.NameFieldReportsUndefined`); the form stores it, and the
   * start button then throws: no flag is shown, nothing is queued and the
   * screen stays, whatever the other fields hold.
   */
  method UndefinedNameThrowsOnStart(time: int) returns (navigated: bool, threw: bool, flags: Errors, queued: nat)
    ensures !navigated && threw && flags == map[] && queued == 0
  {
    var form := new InputForm([], map[]);
    form.HandleInputChange(Mbti, Text(Str("ESFP - 表演者")));
    form.HandleInputChange(Mood, Text(Str("开心")));
    form.HandleInputChange(Zodiac, Text(Str("天蝎座")));
    var report := SelectInput.NameFieldReportsUndefined();
    form.HandleInputChange(Name, Forwarded(report.value));
    navigated, threw := form.HandleStart(time);
    flags := form.errors;
    queued := |form.queue|;
  }
}
