/** `handleFormSubmit` up to the navigation: the copy of the draft with the
    dietary override, the removal of the two form-local properties and of
    every empty property, the query string `URLSearchParams` makes of what
    is left, and the redirect URL. */
module Submission {
  import Strings
  import opened FormRecord
  import opened FormUrlencoded
  import opened Registration
  import opened FormEvents

  /** The endpoint the form redirects to. */
  const BASE_URL := "https://dev-sjghc.creatio.com/0/ServiceModel/UsrAnonymousEventRegistrationService.svc/CreateEvent"

  /** `formData.otherDietaryRequirement || formData.dietaryRequirements`. */
  function SubmittedDietary(d: Draft): Value {
    Or(Get(d, OTHER_DIETARY_REQUIREMENT), Get(d, DIETARY_REQUIREMENTS))
  }

  /** The copy after the spread with the dietary override and the two
      `delete`s, before the empty properties are dropped. */
  function Filtered(d: Draft): Draft {
    Delete(Delete(Set(d, DIETARY_REQUIREMENTS, SubmittedDietary(d)), OTHER_DIETARY_REQUIREMENT), TERMS_ACCEPTED)
  }

  /** What `new URLSearchParams(record)` holds: each property in order, its
      value converted to a string. */
  function ToPairs(es: seq<Entry>): seq<(string, string)> {
    seq(|es|, i requires 0 <= i < |es| => (es[i].key, ToString(es[i].value)))
  }

  function PairKeys(ps: seq<(string, string)>): seq<string> {
    seq(|ps|, i requires 0 <= i < |ps| => ps[i].0)
  }

  /** The outbound name/value pairs for a draft. */
  function Outbound(d: Draft): seq<(string, string)> {
    ToPairs(DropEmpty(Filtered(d)))
  }

  /** The redirect URL for a draft. */
  function FullUrl(d: Draft): string {
    BASE_URL + "?" + Serialize(Outbound(d))
  }

  /** Dropping empty properties from one more element of a list. */
  lemma DropEmptyStep(copy: seq<Entry>, i: nat)
    requires i < |copy|
    ensures DropEmpty(copy[..i + 1]) == DropEmpty(copy[..i]) + (if IsNotEmpty(copy[i]) then [copy[i]] else [])
  {
    assert copy[..i + 1] == copy[..i] + [copy[i]];
    FilterAppend(copy[..i], [copy[i]], IsNotEmpty);
  }

  /** One turn of the clean-up loop: the current property is read with
      its own value, and deleting it when that value is "" extends the
      cleaned prefix by one. */
  lemma CleanupStep(filtered: Draft, copy: seq<Entry>, i: nat)
    requires i < |copy|
    requires filtered == DropEmpty(copy[..i]) + copy[i..]
    ensures Get(filtered, copy[i].key) == copy[i].value
    ensures (if copy[i].value == Str("") then Delete(filtered, copy[i].key) else filtered) ==
            DropEmpty(copy[..i + 1]) + copy[i + 1..]
  {
    var done := DropEmpty(copy[..i]);
    var e := copy[i];
    var rest := copy[i + 1..];
    assert copy[i..] == [e] + rest;
    assert filtered == done + [e] + rest;
    DeleteAt(filtered, done, e, rest);
    DropEmptyStep(copy, i);
    if e.value == Str("") {
      assert DropEmpty(copy[..i + 1]) == done;
    } else {
      assert DropEmpty(copy[..i + 1]) == done + [e];
    }
  }

  /** The loop of `handleFormSubmit` that walks a snapshot of the copy's
      keys and deletes each property whose value is "": it leaves exactly
      the non-empty properties, in their order. */
  method RemoveEmptyProperties(copy: Draft) returns (filtered: Draft)
    ensures filtered == DropEmpty(copy)
  {
    filtered := copy;
    var keys := Keys(copy);
    var i := 0;
    assert copy[..0] == [];
    while i < |keys|
      invariant 0 <= i <= |keys| == |copy|
      invariant filtered == DropEmpty(copy[..i]) + copy[i..]
    {
      CleanupStep(filtered, copy, i);
      if Get(filtered, keys[i]) == Str("") {
        filtered := Delete(filtered, keys[i]);
      }
      i := i + 1;
    }
    assert copy[..i] == copy;
  }

  /** `handleFormSubmit` up to the redirect: the copy with the dietary
      override, without the two form-local properties and without empty
      properties, serialized after the base URL and a "?". */
  method HandleFormSubmit(formData: Draft) returns (queryParams: seq<(string, string)>, fullUrl: string)
    ensures queryParams == Outbound(formData)
    ensures fullUrl == FullUrl(formData)
  {
    var copy := Set(formData, DIETARY_REQUIREMENTS,
                    Or(Get(formData, OTHER_DIETARY_REQUIREMENT), Get(formData, DIETARY_REQUIREMENTS)));
    copy := Delete(copy, OTHER_DIETARY_REQUIREMENT);
    copy := Delete(copy, TERMS_ACCEPTED);
    var filtered := RemoveEmptyProperties(copy);
    queryParams := ToPairs(filtered);
    fullUrl := BASE_URL + "?" + Serialize(queryParams);
  }

  /** The value the submission sends for a property name: the override for
      `dietaryRequirements`, the draft's own value for everything else. */
  function Submitted(d: Draft, k: string): Value {
    if k == DIETARY_REQUIREMENTS then SubmittedDietary(d) else Get(d, k)
  }

  /** Converting to pairs keeps the names in order. */
  lemma PairKeysOfToPairs(es: seq<Entry>)
    ensures PairKeys(ToPairs(es)) == Keys(es)
  {
  }

  /** A property of the draft is its name together with the value read
      under that name. */
  lemma DraftMember(d: Draft, e: Entry)
    ensures e in d <==> e.key in Keys(d) && e.value == Get(d, e.key)
  {
    if e in d {
      GetEntry(d, e);
      KeysMember(d, e.key);
    }
  }

  /** The properties left after the override and the two deletions. */
  lemma FilteredMembers(d: Draft)
    ensures forall e :: e in Filtered(d) <==>
      e.key != OTHER_DIETARY_REQUIREMENT && e.key != TERMS_ACCEPTED &&
      (e.key in Keys(d) || e.key == DIETARY_REQUIREMENTS) && e.value == Submitted(d, e.key)
  {
    SetMembers(d, DIETARY_REQUIREMENTS, SubmittedDietary(d));
    forall e ensures e in d <==> e.key in Keys(d) && e.value == Get(d, e.key) {
      DraftMember(d, e);
    }
  }

  /** The properties that are sent: exactly the non-empty submitted values
      under every name of the draft (and `dietaryRequirements`) except the
      two form-local ones. */
  lemma OutboundMembers(d: Draft)
    ensures forall e :: e in DropEmpty(Filtered(d)) <==>
      e.key != OTHER_DIETARY_REQUIREMENT && e.key != TERMS_ACCEPTED &&
      (e.key in Keys(d) || e.key == DIETARY_REQUIREMENTS) &&
      e.value == Submitted(d, e.key) && e.value != Str("")
  {
    FilteredMembers(d);
  }

  /** A name is sent exactly when it is a property of the draft (or is
      `dietaryRequirements`), is not one of the two form-local properties,
      and its submitted value is not "". */
  lemma OutboundNames(d: Draft, k: string)
    ensures k in PairKeys(Outbound(d)) <==>
      k != OTHER_DIETARY_REQUIREMENT && k != TERMS_ACCEPTED &&
      (k in Keys(d) || k == DIETARY_REQUIREMENTS) && Submitted(d, k) != Str("")
  {
    var es := DropEmpty(Filtered(d));
    PairKeysOfToPairs(es);
    KeysMember(es, k);
    OutboundMembers(d);
    if k != OTHER_DIETARY_REQUIREMENT && k != TERMS_ACCEPTED &&
       (k in Keys(d) || k == DIETARY_REQUIREMENTS) && Submitted(d, k) != Str("") {
      assert Entry(k, Submitted(d, k)) in es;
    }
  }

  /** Every pair sent carries the submitted value of its name, as a
      non-empty string. */
  lemma OutboundValues(d: Draft, i: nat)
    requires i < |Outbound(d)|
    ensures Outbound(d)[i].1 == ToString(Submitted(d, Outbound(d)[i].0))
    ensures Outbound(d)[i].1 != ""
  {
    var es := DropEmpty(Filtered(d));
    OutboundMembers(d);
    assert es[i] in es;
  }

  /** The free-text field and the terms checkbox are never sent. */
  lemma OutboundExcludesFormLocal(d: Draft)
    ensures OTHER_DIETARY_REQUIREMENT !in PairKeys(Outbound(d))
    ensures TERMS_ACCEPTED !in PairKeys(Outbound(d))
  {
    OutboundNames(d, OTHER_DIETARY_REQUIREMENT);
    OutboundNames(d, TERMS_ACCEPTED);
  }

  /** No name is sent twice. */
  lemma OutboundNamesDistinct(d: Draft)
    ensures forall i, j :: 0 <= i < j < |Outbound(d)| ==> Outbound(d)[i].0 != Outbound(d)[j].0
  {
    var es := DropEmpty(Filtered(d));
    assert UniqueKeys(es);
  }

  /** Every other property of the draft with a non-empty value is sent
      exactly once, with its value. */
  lemma DraftFieldSentOnce(d: Draft, k: string)
    requires k in Keys(d) && Get(d, k) != Str("")
    requires k != DIETARY_REQUIREMENTS && k != OTHER_DIETARY_REQUIREMENT && k != TERMS_ACCEPTED
    ensures exists i :: 0 <= i < |Outbound(d)| && Outbound(d)[i] == (k, ToString(Get(d, k)))
    ensures forall i, j ::
      (0 <= i < |Outbound(d)| && 0 <= j < |Outbound(d)| && Outbound(d)[i].0 == k && Outbound(d)[j].0 == k) ==> i == j
  {
    var o := Outbound(d);
    OutboundNames(d, k);
    OutboundNamesDistinct(d);
    var i :| 0 <= i < |o| && PairKeys(o)[i] == k;
    OutboundValues(d, i);
    assert o[i] == (k, ToString(Get(d, k)));
  }

  /** The free text, when there is any, replaces the selection under
      `dietaryRequirements`; otherwise the selection is sent as it is, and
      nothing is sent under that name when both are "". */
  lemma DietaryOverride(d: Draft)
    ensures Truthy(Get(d, OTHER_DIETARY_REQUIREMENT)) ==>
      (DIETARY_REQUIREMENTS, ToString(Get(d, OTHER_DIETARY_REQUIREMENT))) in Outbound(d)
    ensures !Truthy(Get(d, OTHER_DIETARY_REQUIREMENT)) && Get(d, DIETARY_REQUIREMENTS) != Str("") ==>
      (DIETARY_REQUIREMENTS, ToString(Get(d, DIETARY_REQUIREMENTS))) in Outbound(d)
    ensures Get(d, OTHER_DIETARY_REQUIREMENT) == Str("") && Get(d, DIETARY_REQUIREMENTS) == Str("") ==>
      DIETARY_REQUIREMENTS !in PairKeys(Outbound(d))
  {
    var es := DropEmpty(Filtered(d));
    OutboundMembers(d);
    OutboundNames(d, DIETARY_REQUIREMENTS);
    var e := Entry(DIETARY_REQUIREMENTS, SubmittedDietary(d));
    if SubmittedDietary(d) != Str("") {
      assert e in es;
      var i :| 0 <= i < |es| && es[i] == e;
      assert Outbound(d)[i] == (DIETARY_REQUIREMENTS, ToString(SubmittedDietary(d)));
    }
  }

  /** The names are sent in the draft's own order (with
      `dietaryRequirements` appended when the draft lacks it). */
  lemma OutboundOrder(d: Draft)
    ensures IsSubsequence(PairKeys(Outbound(d)),
      if DIETARY_REQUIREMENTS in Keys(d) then Keys(d) else Keys(d) + [DIETARY_REQUIREMENTS])
  {
    var s := Set(d, DIETARY_REQUIREMENTS, SubmittedDietary(d));
    var f1 := Delete(s, OTHER_DIETARY_REQUIREMENT);
    var f2 := Delete(f1, TERMS_ACCEPTED);
    var es := DropEmpty(f2);
    PairKeysOfToPairs(es);
    IsSubsequenceTransitive(Keys(es), Keys(f2), Keys(f1));
    IsSubsequenceTransitive(Keys(es), Keys(f1), Keys(s));
  }

  /** A draft whose last property is a non-empty `eventId` sends it last. */
  lemma LastPropertySentLast(d: Draft)
    requires |d| > 0 && d[|d| - 1].key == EVENT_ID
    requires DIETARY_REQUIREMENTS in Keys(d)
    requires d[|d| - 1].value != Str("")
    ensures Outbound(d) != []
    ensures Outbound(d)[|Outbound(d)| - 1] == (EVENT_ID, ToString(d[|d| - 1].value))
  {
    GetEntry(d, d[|d| - 1]);
    assert Keys(d)[|d| - 1] == EVENT_ID;
    OutboundNames(d, EVENT_ID);
    OutboundOrder(d);
    LastKeyOnce(d);
    LastOfSubsequence(PairKeys(Outbound(d)), Keys(d), EVENT_ID);
    OutboundValues(d, |Outbound(d)| - 1);
  }

  /** A seeded draft (which every draft the form reaches is, by
      `ReachableDraftsAreSeeded`) sends `eventId` last when the page was
      opened with a non-empty `eventId` parameter. */
  lemma SeededDraftSendsEventIdLast(d: Draft, params: QueryParams)
    requires IsSeededDraft(d, params)
    requires ParamOrEmpty(params, EVENT_ID) != ""
    ensures Outbound(d) != []
    ensures Outbound(d)[|Outbound(d)| - 1] == (EVENT_ID, ParamOrEmpty(params, EVENT_ID))
  {
    assert IsEventField(EVENT_ID);
    assert Keys(d)[|Keys(d)| - 1] == EVENT_ID;
    assert DIETARY_REQUIREMENTS == Keys(d)[9];
    GetEntry(d, d[|d| - 1]);
    LastPropertySentLast(d);
  }

  /** The redirect URL is the endpoint, a "?" (present even when nothing is
      sent), and the serialized pairs. */
  lemma UrlShape(d: Draft)
    ensures FullUrl(d)[..|BASE_URL|] == BASE_URL
    ensures FullUrl(d)[|BASE_URL|] == '?'
    ensures FullUrl(d)[|BASE_URL| + 1..] == Serialize(Outbound(d))
    ensures Outbound(d) == [] <==> FullUrl(d) == BASE_URL + "?"
  {
    var u := FullUrl(d);
    assert u == BASE_URL + ("?" + Serialize(Outbound(d)));
    assert FullUrl(d) == BASE_URL + "?" ==> Serialize(Outbound(d)) == "" by {
      if FullUrl(d) == BASE_URL + "?" {
        assert |Serialize(Outbound(d))| == 0;
      }
    }
  }
}
