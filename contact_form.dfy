/** `handleFormSubmit` (js/main.js:206-245): collect the submitted fields,
    check the five required ones, check the address, then swap the form for
    the success message until the deferred reset swaps them back. */
module ContactForm {
  import opened Dom
  import opened Email

  /** One named control of the form and its current value, as FormData lists it. */
  datatype Field = Field(name: string, value: string)

  const MissingFieldsAlert: string := "Please fill in all required fields."
  const InvalidEmailAlert: string := "Please enter a valid email address."

  /** What a submission leads to: a blocking alert, or the data that is logged. */
  datatype Outcome = Alert(message: string) | Submitted(data: map<string, string>)

  /** The `data` object: each entry is stored under its name, so a later entry
      with the same name replaces an earlier one. */
  function DataOf(entries: seq<Field>): map<string, string>
  {
    if entries == [] then map[]
    else
      var last := entries[|entries| - 1];
      DataOf(entries[..|entries| - 1])[last.name := last.value]
  }

  /** A name is a key of `data` exactly when some entry carries it. */
  lemma {:induction false} DataOfKeys(entries: seq<Field>, name: string)
    ensures name in DataOf(entries) <==> exists i :: 0 <= i < |entries| && entries[i].name == name
  {
    if entries != [] {
      var n := |entries| - 1;
      DataOfKeys(entries[..n], name);
      if exists i :: 0 <= i < n && entries[..n][i].name == name {
        var i :| 0 <= i < n && entries[..n][i].name == name;
        assert entries[i].name == name;
      }
      if exists i :: 0 <= i < |entries| && entries[i].name == name {
        var i :| 0 <= i < |entries| && entries[i].name == name;
        if i < n { assert entries[..n][i].name == name; }
      }
    }
  }

  /** The value stored under a name is that of the last entry carrying it. */
  lemma {:induction false} DataOfLastWins(entries: seq<Field>, i: nat)
    requires i < |entries|
    requires forall j :: i < j < |entries| ==> entries[j].name != entries[i].name
    ensures entries[i].name in DataOf(entries)
    ensures DataOf(entries)[entries[i].name] == entries[i].value
  {
    var n := |entries| - 1;
    if i < n {
      DataOfLastWins(entries[..n], i);
    }
  }

  /** The `formData.forEach` loop that fills `data` (js/main.js:213-217). */
  method CollectData(entries: seq<Field>) returns (data: map<string, string>)
    ensures data == DataOf(entries)
  {
    data := map[];
    var i := 0;
    while i < |entries|
      invariant 0 <= i <= |entries|
      invariant data == DataOf(entries[..i])
    {
      assert entries[..i + 1][..i] == entries[..i];
      data := data[entries[i].name := entries[i].value];
      i := i + 1;
    }
    assert entries[..|entries|] == entries;
  }

  /** `!data[key]` is false: the key is present and its value is not the empty string. */
  predicate IsFilled(data: map<string, string>, key: string) {
    key in data && data[key] != ""
  }

  /** The required fields firstName, lastName, email, subject and message. */
  predicate AllRequiredFilled(data: map<string, string>) {
    IsFilled(data, "firstName") && IsFilled(data, "lastName") && IsFilled(data, "email") &&
    IsFilled(data, "subject") && IsFilled(data, "message")
  }

  /** The two checks of js/main.js:220-230, in the order they run. */
  function Validate(data: map<string, string>): Outcome
  {
    if !AllRequiredFilled(data) then Alert(MissingFieldsAlert)
    else if !TestEmail(data["email"]) then Alert(InvalidEmailAlert)
    else Submitted(data)
  }

  /** A submission goes through exactly when every required field is filled
      and the address is in the pattern's language; the missing-field alert
      takes precedence over the address alert. */
  lemma ValidateCharacterised(data: map<string, string>)
    ensures Validate(data).Submitted? <==> AllRequiredFilled(data) && MatchesPattern(data["email"])
    ensures Validate(data).Submitted? ==> Validate(data).data == data
    ensures !AllRequiredFilled(data) ==> Validate(data) == Alert(MissingFieldsAlert)
    ensures AllRequiredFilled(data) && !MatchesPattern(data["email"]) ==>
      Validate(data) == Alert(InvalidEmailAlert)
  {
    if IsFilled(data, "email") {
      TestEmailIsPattern(data["email"]);
    }
  }

  /** The form's controls after `form.reset()`: same names, default (empty) values. */
  function Cleared(controls: seq<Field>): (r: seq<Field>)
    ensures |r| == |controls|
    ensures forall i :: 0 <= i < |r| ==> r[i].name == controls[i].name && r[i].value == ""
  {
    if controls == [] then []
    else Cleared(controls[..|controls| - 1]) + [Field(controls[|controls| - 1].name, "")]
  }

  /** A form that has just been reset is rejected with the missing-field alert. */
  lemma {:induction false} ClearedFormRejected(controls: seq<Field>)
    ensures Validate(DataOf(Cleared(controls))) == Alert(MissingFieldsAlert)
  {
    var cleared := Cleared(controls);
    DataOfKeys(cleared, "firstName");
    if "firstName" in DataOf(cleared) {
      var i :| 0 <= i < |cleared| && cleared[i].name == "firstName";
      var j := LastWithName(cleared, i);
      DataOfLastWins(cleared, j);
    }
  }

  /** The last index from `i` on whose entry has the same name as entry `i`. */
  lemma {:induction false} LastWithName(entries: seq<Field>, i: nat) returns (j: nat)
    requires i < |entries|
    ensures i <= j < |entries| && entries[j].name == entries[i].name
    ensures forall k :: j < k < |entries| ==> entries[k].name != entries[j].name
    decreases |entries| - i
  {
    if exists k :: i < k < |entries| && entries[k].name == entries[i].name {
      var k :| i < k < |entries| && entries[k].name == entries[i].name;
      j := LastWithName(entries, k);
    } else {
      j := i;
    }
  }

  /** A filled-in form, as in the form's own example. */
  function ExampleData(): map<string, string> {
    map["firstName" := "Ama", "lastName" := "Owusu", "email" := "ama@example.com",
        "subject" := "Hi", "message" := "Hello"]
  }

  /** The submissions the form's behaviour is described with. */
  lemma ExampleAccepted()
    ensures Validate(ExampleData()) == Submitted(ExampleData())
  {
    AcceptsPlainAddress();
    TestEmailIsPattern("ama@example.com");
  }

  lemma ExampleBadEmailRejected()
    ensures Validate(ExampleData()["email" := "bad-email"]) == Alert(InvalidEmailAlert)
  {
  }

  lemma ExampleMissingEmailRejected()
    ensures Validate(ExampleData() - {"email"}) == Alert(MissingFieldsAlert)
  {
  }

  /** The contact form and the success message beside it. `pendingResets`
      counts the five-second reset timers scheduled and not yet fired; the
      source never cancels one. */
  class Form {
    var controls: seq<Field>
    var formDisplay: Display
    var successDisplay: Display
    var pendingResets: nat

    constructor (controls: seq<Field>)
      ensures this.controls == controls
      ensures formDisplay == Unset && successDisplay == Unset && pendingResets == 0
    {
      this.controls := controls;
      formDisplay, successDisplay := Unset, Unset;
      pendingResets := 0;
    }

    /** The submit handler: a rejected submission changes nothing; an
        accepted one hides the form, shows the success message and schedules
        a reset. */
    method HandleSubmit() returns (outcome: Outcome)
      modifies this
      ensures outcome == Validate(DataOf(controls))
      ensures controls == old(controls)
      ensures outcome.Alert? ==>
        formDisplay == old(formDisplay) && successDisplay == old(successDisplay) &&
        pendingResets == old(pendingResets)
      ensures outcome.Submitted? ==>
        formDisplay == Hidden && successDisplay == Block && pendingResets == old(pendingResets) + 1
    {
      var data := CollectData(controls);
      outcome := Validate(data);
      if outcome.Submitted? {
        formDisplay := Hidden;
        successDisplay := Block;
        pendingResets := pendingResets + 1;
      }
    }

    /** One scheduled reset fires: the fields are cleared, the form is shown
        and the success message hidden. */
    method ResetTimerFires()
      requires pendingResets > 0
      modifies this
      ensures controls == Cleared(old(controls))
      ensures formDisplay == Block && successDisplay == Hidden
      ensures pendingResets == old(pendingResets) - 1
    {
      controls := Cleared(controls);
      formDisplay := Block;
      successDisplay := Hidden;
      pendingResets := pendingResets - 1;
    }
  }
}
