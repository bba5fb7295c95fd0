/** The registration draft of `EventRegistrationForm` (src/App.js): its
    initial value, the seeding from the page's query parameters, and the
    three change handlers. React applies each handler's updater to the
    previous draft, so each is a function from the old draft to the new. */
module Registration {
  import Strings
  import opened FormRecord

  datatype Option<T> = None | Some(value: T)

  // Property names of the draft.
  const EVENT_ID := "eventId"
  const EVENT_NAME := "eventName"
  const EVENT_DATE := "eventDate"
  const EVENT_VENUE := "eventVenue"
  const TITLE := "title"
  const FIRST_NAME := "firstName"
  const LAST_NAME := "lastName"
  const MOBILE := "mobile"
  const EMAIL := "email"
  const PRACTICE_NAME := "practiceName"
  const DIETARY_REQUIREMENTS := "dietaryRequirements"
  const OTHER_DIETARY_REQUIREMENT := "otherDietaryRequirement"
  const AHPRA_NUMBER := "AHPRANumber"
  const RACGP := "RACGP"
  const OTHER_CPD := "OtherCPD"
  const TERMS_ACCEPTED := "termsAndConditionsAccepted"

  /** One entry of the dietary catalogue offered by the multi-select. */
  datatype DietaryOption = DietaryOption(caption: string, value: string)

  /** The value of the free-text option; selecting it reveals the
      "Please specify" field. */
  const OTHER_FREE_TEXT := "Other (free text)"

  const DIETARY_OPTIONS: seq<DietaryOption> := [
    DietaryOption("Vegetarian", "7a510b08-ae44-4007-8165-5c41a212383a"),
    DietaryOption("Vegan", "77186a3d-c4b1-4ab0-8f25-57bc3e30dad8"),
    DietaryOption("Gluten Free", "804a98ef-68df-4b2f-a4cd-cac13d4c57a4"),
    DietaryOption("Dairy Free", "3e262b06-a3cb-4a3a-85ad-c54a7858a632"),
    DietaryOption("Nut Allergy", "1605b692-2687-43d7-a15d-15c34ab71a76"),
    DietaryOption("Halal", "609a2269-d1c3-4b62-8edb-caf19e8d5fd2"),
    DietaryOption("No Beef or Pork", "3334e14e-76df-4267-88ba-ef797b138411"),
    DietaryOption(OTHER_FREE_TEXT, OTHER_FREE_TEXT)
  ]

  /** The draft before seeding: every field empty, the terms unaccepted,
      and no `eventId` property at all. */
  const INITIAL_DRAFT: Draft := [
    Entry(EVENT_NAME, Str("")),
    Entry(EVENT_DATE, Str("")),
    Entry(EVENT_VENUE, Str("")),
    Entry(TITLE, Str("")),
    Entry(FIRST_NAME, Str("")),
    Entry(LAST_NAME, Str("")),
    Entry(MOBILE, Str("")),
    Entry(EMAIL, Str("")),
    Entry(PRACTICE_NAME, Str("")),
    Entry(DIETARY_REQUIREMENTS, Str("")),
    Entry(OTHER_DIETARY_REQUIREMENT, Str("")),
    Entry(AHPRA_NUMBER, Str("")),
    Entry(RACGP, Str("")),
    Entry(OTHER_CPD, Str("")),
    Entry(TERMS_ACCEPTED, Bool(false))
  ]

  /** The draft's property names once it has been seeded. */
  const SEEDED_KEYS: seq<string> := [
    EVENT_NAME, EVENT_DATE, EVENT_VENUE, TITLE, FIRST_NAME, LAST_NAME, MOBILE, EMAIL,
    PRACTICE_NAME, DIETARY_REQUIREMENTS, OTHER_DIETARY_REQUIREMENT, AHPRA_NUMBER, RACGP,
    OTHER_CPD, TERMS_ACCEPTED, EVENT_ID
  ]

  // ---------------------------------------------------------------------
  // Seeding from the page's query parameters

  /** The parsed query string of the page, as name/value pairs in order. */
  type QueryParams = seq<(string, string)>

  /** `URLSearchParams.prototype.get`: the value of the first pair with
      that name, or null (None) when there is none. */
  function ParamGet(params: QueryParams, name: string): (r: Option<string>)
    ensures r.None? <==> forall i :: 0 <= i < |params| ==> params[i].0 != name
    ensures r.Some? ==> exists i :: 0 <= i < |params| && params[i] == (name, r.value) &&
                                    forall j :: 0 <= j < i ==> params[j].0 != name
  {
    if params == [] then None
    else if params[0].0 == name then Some(params[0].1)
    else
      var r := ParamGet(params[1..], name);
      assert r.Some? ==> forall i :: 0 <= i < |params[1..]| && params[1..][i] == (name, r.value) ==>
                                       params[i + 1] == (name, r.value);
      r
  }

  /** `urlParams.get(name) || ""`. */
  function ParamOrEmpty(params: QueryParams, name: string): string {
    var got := ParamGet(params, name);
    if got.Some? && got.value != "" then got.value else ""
  }

  /** A seeded field is the parameter's first value when the page has the
      parameter, and "" when it does not; never undefined or null. */
  lemma ParamOrEmptyIsFirstValue(params: QueryParams, name: string)
    ensures (forall i :: 0 <= i < |params| ==> params[i].0 != name) ==> ParamOrEmpty(params, name) == ""
    ensures forall i :: 0 <= i < |params| && params[i].0 == name &&
                        (forall j :: 0 <= j < i ==> params[j].0 != name) ==>
                        ParamOrEmpty(params, name) == params[i].1
  {
    var got := ParamGet(params, name);
    if got.Some? {
      var i :| 0 <= i < |params| && params[i] == (name, got.value) &&
                forall j :: 0 <= j < i ==> params[j].0 != name;
      forall i' | 0 <= i' < |params| && params[i'].0 == name && (forall j :: 0 <= j < i' ==> params[j].0 != name)
        ensures ParamOrEmpty(params, name) == params[i'].1
      {
        assert !(i' < i) && !(i < i');
      }
    }
  }

  predicate IsEventField(k: string) {
    k == EVENT_ID || k == EVENT_NAME || k == EVENT_DATE || k == EVENT_VENUE
  }

  /** The seeding updater: the previous draft spread, then the four event
      properties assigned from the query parameters. */
  function Seed(prev: Draft, params: QueryParams): (r: Draft)
    ensures forall k :: IsEventField(k) ==> Get(r, k) == Str(ParamOrEmpty(params, k))
    ensures forall k :: !IsEventField(k) ==> Get(r, k) == Get(prev, k)
  {
    var d1 := Set(prev, EVENT_ID, Str(ParamOrEmpty(params, EVENT_ID)));
    var d2 := Set(d1, EVENT_NAME, Str(ParamOrEmpty(params, EVENT_NAME)));
    var d3 := Set(d2, EVENT_DATE, Str(ParamOrEmpty(params, EVENT_DATE)));
    Set(d3, EVENT_VENUE, Str(ParamOrEmpty(params, EVENT_VENUE)))
  }

  /** Seeding the initial draft adds `eventId` after every initial
      property, since the initial draft has no such property; the other
      three event properties keep their places. */
  lemma SeededInitialKeys(params: QueryParams)
    ensures Keys(Seed(INITIAL_DRAFT, params)) == SEEDED_KEYS
  {
    var ks := Keys(INITIAL_DRAFT);
    assert ks + [EVENT_ID] == SEEDED_KEYS;
    assert EVENT_ID !in ks;
    var s := SEEDED_KEYS;
    assert s[0] == EVENT_NAME && s[1] == EVENT_DATE && s[2] == EVENT_VENUE;
  }

  lemma InitialDietaryRequirements()
    ensures Get(INITIAL_DRAFT, DIETARY_REQUIREMENTS) == Str("")
  {
    assert INITIAL_DRAFT[9] == Entry(DIETARY_REQUIREMENTS, Str(""));
    GetEntry(INITIAL_DRAFT, Entry(DIETARY_REQUIREMENTS, Str("")));
  }

  /** Seeding the initial draft gives a seeded draft. */
  lemma SeededInitialDraft(params: QueryParams)
    ensures Keys(Seed(INITIAL_DRAFT, params)) == SEEDED_KEYS
    ensures Get(Seed(INITIAL_DRAFT, params), DIETARY_REQUIREMENTS) == Str("")
  {
    SeededInitialKeys(params);
    InitialDietaryRequirements();
    assert !IsEventField(DIETARY_REQUIREMENTS);
  }

  // ---------------------------------------------------------------------
  // Field changes

  /** What `event.target` of a change event carries. */
  datatype InputTarget = InputTarget(name: string, inputType: string, value: string, checked: bool)

  /** `handleInputChange`: the field named by the target becomes `checked`
      for a checkbox and `value` otherwise; nothing else changes. */
  function HandleInputChange(prev: Draft, target: InputTarget): (r: Draft)
    ensures Get(r, target.name) ==
              if target.inputType == "checkbox" then Bool(target.checked) else Str(target.value)
    ensures forall k :: k != target.name ==> Get(r, k) == Get(prev, k)
    ensures target.name in Keys(prev) ==> Keys(r) == Keys(prev)
  {
    Set(prev, target.name,
        if target.inputType == "checkbox" then Bool(target.checked) else Str(target.value))
  }

  /** The phone input's change handler: `mobile` becomes the phone number
      the input reports; nothing else changes. */
  function HandleMobileChange(prev: Draft, phone: string): (r: Draft)
    ensures Get(r, MOBILE) == Str(phone)
    ensures forall k :: k != MOBILE ==> Get(r, k) == Get(prev, k)
    ensures MOBILE in Keys(prev) ==> Keys(r) == Keys(prev)
  {
    Set(prev, MOBILE, Str(phone))
  }

  /** The option values of a selection, in selection order
      (`selectedOptions.map((option) => option.value)`). */
  function OptionValues(selected: seq<DietaryOption>): seq<string> {
    seq(|selected|, i requires 0 <= i < |selected| => selected[i].value)
  }

  /** `selectedOptions.some((option) => option.value === "Other (free text)")`. */
  predicate SelectsOther(selected: seq<DietaryOption>) {
    exists i :: 0 <= i < |selected| && selected[i].value == OTHER_FREE_TEXT
  }

  /** `handleDietaryRequirementsChange`: `dietaryRequirements` becomes the
      selected values joined by commas, and the free text is kept only while
      the free-text option is selected. */
  function HandleDietaryRequirementsChange(prev: Draft, selected: seq<DietaryOption>): (r: Draft)
    ensures Get(r, DIETARY_REQUIREMENTS) == Str(Strings.Join(OptionValues(selected), ','))
    ensures selected == [] ==> Get(r, DIETARY_REQUIREMENTS) == Str("")
    ensures |selected| == 1 ==> Get(r, DIETARY_REQUIREMENTS) == Str(selected[0].value)
    ensures Get(r, OTHER_DIETARY_REQUIREMENT) ==
              if SelectsOther(selected) then Get(prev, OTHER_DIETARY_REQUIREMENT) else Str("")
    ensures forall k :: k != DIETARY_REQUIREMENTS && k != OTHER_DIETARY_REQUIREMENT ==>
              Get(r, k) == Get(prev, k)
    ensures DIETARY_REQUIREMENTS in Keys(prev) && OTHER_DIETARY_REQUIREMENT in Keys(prev) ==>
              Keys(r) == Keys(prev)
  {
    var d := Set(prev, DIETARY_REQUIREMENTS, Str(Strings.Join(OptionValues(selected), ',')));
    Set(d, OTHER_DIETARY_REQUIREMENT,
        if SelectsOther(selected) then Get(prev, OTHER_DIETARY_REQUIREMENT) else Str(""))
  }

  /** The selection is drawn from the catalogue. */
  predicate FromCatalogue(selected: seq<DietaryOption>) {
    forall i :: 0 <= i < |selected| ==> selected[i] in DIETARY_OPTIONS
  }

  /** The characters of the catalogue's identifiers: lower-case hex digits
      and hyphens. */
  predicate IsIdentifier(v: string) {
    forall i :: 0 <= i < |v| ==> ('0' <= v[i] <= '9') || ('a' <= v[i] <= 'f') || v[i] == '-'
  }

  // One lemma per identifier keeps each literal's character check separate.
  lemma VegetarianIsIdentifier() ensures IsIdentifier(DIETARY_OPTIONS[0].value) {}
  lemma VeganIsIdentifier() ensures IsIdentifier(DIETARY_OPTIONS[1].value) {}
  lemma GlutenFreeIsIdentifier() ensures IsIdentifier(DIETARY_OPTIONS[2].value) {}
  lemma DairyFreeIsIdentifier() ensures IsIdentifier(DIETARY_OPTIONS[3].value) {}
  lemma NutAllergyIsIdentifier() ensures IsIdentifier(DIETARY_OPTIONS[4].value) {}
  lemma HalalIsIdentifier() ensures IsIdentifier(DIETARY_OPTIONS[5].value) {}
  lemma NoBeefOrPorkIsIdentifier() ensures IsIdentifier(DIETARY_OPTIONS[6].value) {}

  /** No catalogue value contains a comma, and only the free-text value
      contains the letter `O`. */
  lemma CatalogueValues()
    ensures forall o :: o in DIETARY_OPTIONS ==> ',' !in o.value
    ensures forall o :: o in DIETARY_OPTIONS && 'O' in o.value ==> o.value == OTHER_FREE_TEXT
  {
    VegetarianIsIdentifier(); VeganIsIdentifier(); GlutenFreeIsIdentifier(); DairyFreeIsIdentifier();
    NutAllergyIsIdentifier(); HalalIsIdentifier(); NoBeefOrPorkIsIdentifier();
    forall o | o in DIETARY_OPTIONS
      ensures ',' !in o.value && ('O' in o.value ==> o.value == OTHER_FREE_TEXT)
    {
      var i :| 0 <= i < |DIETARY_OPTIONS| && DIETARY_OPTIONS[i] == o;
      if i < |DIETARY_OPTIONS| - 1 {
        var v := o.value;
        assert IsIdentifier(v);
        assert forall j :: 0 <= j < |v| ==> v[j] != ',' && v[j] != 'O';
      } else {
        assert ',' !in OTHER_FREE_TEXT;
      }
    }
  }

  /** A non-empty selection from the catalogue can be read back from
      `dietaryRequirements` by splitting it at commas. */
  lemma {:induction false} DietarySelectionRecoverable(prev: Draft, selected: seq<DietaryOption>)
    requires FromCatalogue(selected) && selected != []
    ensures Get(HandleDietaryRequirementsChange(prev, selected), DIETARY_REQUIREMENTS).Str?
    ensures Strings.Split(Get(HandleDietaryRequirementsChange(prev, selected), DIETARY_REQUIREMENTS).s, ',') ==
            OptionValues(selected)
  {
    CatalogueValues();
    var xs := OptionValues(selected);
    forall i | 0 <= i < |xs| ensures ',' !in xs[i] {
      assert selected[i] in DIETARY_OPTIONS;
    }
    Strings.SplitJoin(xs, ',');
  }

  // ---------------------------------------------------------------------
  // The "Please specify" field

  /** `formData.dietaryRequirements.includes("Other (free text)")`: whether
      the free-text field is rendered. */
  predicate ShowsOtherField(d: Draft) {
    Get(d, DIETARY_REQUIREMENTS).Str? &&
    Strings.Contains(Get(d, DIETARY_REQUIREMENTS).s, OTHER_FREE_TEXT)
  }

  /** After a selection from the catalogue, the free-text field is shown
      exactly when the free-text option is among the selected ones, which is
      also exactly when the free text survives the change. */
  lemma {:induction false} OtherFieldShownIffSelected(prev: Draft, selected: seq<DietaryOption>)
    requires FromCatalogue(selected)
    ensures ShowsOtherField(HandleDietaryRequirementsChange(prev, selected)) <==> SelectsOther(selected)
  {
    var xs := OptionValues(selected);
    var joined := Strings.Join(xs, ',');
    if SelectsOther(selected) {
      var i :| 0 <= i < |selected| && selected[i].value == OTHER_FREE_TEXT;
      Strings.JoinContainsElement(xs, ',', i);
    }
    if Strings.Contains(joined, OTHER_FREE_TEXT) {
      Strings.ContainsFirstChar(joined, OTHER_FREE_TEXT);
      Strings.CharOfJoin(xs, ',', 'O');
      var i :| 0 <= i < |xs| && 'O' in xs[i];
      CatalogueValues();
      assert selected[i] in DIETARY_OPTIONS;
    }
  }
}
