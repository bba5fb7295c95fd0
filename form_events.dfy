/** The drafts the registration form can reach: the seeded initial draft
    followed by any sequence of field changes, each delivered to its
    handler. */
module FormEvents {
  import opened FormRecord
  import opened Registration

  /** One user interaction, delivered to its handler. */
  datatype FormEvent =
    | TextInput(target: InputTarget)
    | PhoneInput(phone: string)
    | DietarySelection(selected: seq<DietaryOption>)

  function Apply(d: Draft, ev: FormEvent): Draft {
    match ev
    case TextInput(target) => HandleInputChange(d, target)
    case PhoneInput(phone) => HandleMobileChange(d, phone)
    case DietarySelection(selected) => HandleDietaryRequirementsChange(d, selected)
  }

  /** The handlers applied one after another, as React applies queued
      updaters. */
  function Replay(d: Draft, evs: seq<FormEvent>): Draft
    decreases |evs|
  {
    if evs == [] then d else Replay(Apply(d, evs[0]), evs[1..])
  }

  /** The fields whose `onChange` is `handleInputChange`; the event fields
      are disabled and have none. */
  const INPUT_FIELDS: set<string> := {
    TITLE, FIRST_NAME, LAST_NAME, EMAIL, PRACTICE_NAME, OTHER_DIETARY_REQUIREMENT,
    AHPRA_NUMBER, RACGP, OTHER_CPD, TERMS_ACCEPTED
  }

  /** An event the rendered form can deliver. */
  predicate IsFormEvent(ev: FormEvent) {
    match ev
    case TextInput(target) => target.name in INPUT_FIELDS
    case PhoneInput(_) => true
    case DietarySelection(selected) => FromCatalogue(selected)
  }

  /** What holds of every draft after seeding: the seeded property names
      in their order, the event fields as seeded, and a string-valued
      `dietaryRequirements`. */
  ghost predicate IsSeededDraft(d: Draft, params: QueryParams) {
    Keys(d) == SEEDED_KEYS &&
    (forall k :: IsEventField(k) ==> Get(d, k) == Str(ParamOrEmpty(params, k))) &&
    Get(d, DIETARY_REQUIREMENTS).Str?
  }

  /** The fields wired to `handleInputChange` are all initial properties,
      none of them an event field or `dietaryRequirements`. */
  lemma InputFieldsAreSeeded()
    ensures forall k :: k in INPUT_FIELDS ==> k in SEEDED_KEYS && !IsEventField(k) && k != DIETARY_REQUIREMENTS
    ensures MOBILE in SEEDED_KEYS && DIETARY_REQUIREMENTS in SEEDED_KEYS && OTHER_DIETARY_REQUIREMENT in SEEDED_KEYS
  {
    var ks := SEEDED_KEYS;
    assert ks[3] == TITLE && ks[4] == FIRST_NAME && ks[5] == LAST_NAME && ks[6] == MOBILE &&
           ks[7] == EMAIL && ks[8] == PRACTICE_NAME && ks[9] == DIETARY_REQUIREMENTS &&
           ks[10] == OTHER_DIETARY_REQUIREMENT && ks[11] == AHPRA_NUMBER && ks[12] == RACGP &&
           ks[13] == OTHER_CPD && ks[14] == TERMS_ACCEPTED;
  }

  /** A handler applied to a draft that has the fields it writes keeps the
      property names and the event fields. */
  lemma ApplyKeepsShape(d: Draft, ev: FormEvent)
    requires MOBILE in Keys(d) && DIETARY_REQUIREMENTS in Keys(d) && OTHER_DIETARY_REQUIREMENT in Keys(d)
    requires ev.TextInput? ==>
               ev.target.name in Keys(d) && !IsEventField(ev.target.name) &&
               ev.target.name != DIETARY_REQUIREMENTS
    ensures Keys(Apply(d, ev)) == Keys(d)
    ensures forall k :: IsEventField(k) ==> Get(Apply(d, ev), k) == Get(d, k)
    ensures Get(d, DIETARY_REQUIREMENTS).Str? ==> Get(Apply(d, ev), DIETARY_REQUIREMENTS).Str?
  {
  }

  /** Every handler the rendered form wires up keeps a seeded draft seeded. */
  lemma ApplyKeepsSeeded(d: Draft, params: QueryParams, ev: FormEvent)
    requires IsSeededDraft(d, params) && IsFormEvent(ev)
    ensures IsSeededDraft(Apply(d, ev), params)
  {
    InputFieldsAreSeeded();
    ApplyKeepsShape(d, ev);
  }

  lemma {:induction false} ReplayKeepsSeeded(d: Draft, params: QueryParams, evs: seq<FormEvent>)
    requires IsSeededDraft(d, params)
    requires forall i :: 0 <= i < |evs| ==> IsFormEvent(evs[i])
    ensures IsSeededDraft(Replay(d, evs), params)
    decreases |evs|
  {
    if evs != [] {
      ApplyKeepsSeeded(d, params, evs[0]);
      ReplayKeepsSeeded(Apply(d, evs[0]), params, evs[1..]);
    }
  }

  /** Every draft the form reaches after seeding, whatever the user does,
      has the seeded property names in order with `eventId` last, and the
      event fields as the page's parameters set them. */
  lemma ReachableDraftsAreSeeded(params: QueryParams, evs: seq<FormEvent>)
    requires forall i :: 0 <= i < |evs| ==> IsFormEvent(evs[i])
    ensures IsSeededDraft(Replay(Seed(INITIAL_DRAFT, params), evs), params)
  {
    var d := Seed(INITIAL_DRAFT, params);
    assert IsSeededDraft(d, params) by {
      SeededInitialDraft(params);
    }
    ReplayKeepsSeeded(d, params, evs);
  }
}
