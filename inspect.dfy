/**
 * The page's Inspect action (`fetchMeta`) and its Clear button (`clearInput`).
 *
 * The component's state is four fields: the text in the input box, whether a
 * request is in flight, the message shown to the user, and the metadata shown
 * (null until a request succeeds). Inspect runs in two steps around its one
 * `await`: Begin checks the input, clears the old result and decides whether to
 * ask the metadata service and for which id; Settle takes the service's answer
 * and classifies it. The answer is an input to the model, never something the
 * model obtains.
 */
module Inspect {
  import opened Wrappers
  import opened Text
  import opened Json
  import opened Extract

  // ---------------------------------------------------------------------------
  // Messages
  // ---------------------------------------------------------------------------

  const EmptyInputText: string := "❌ Please enter a video ID or share link."
  const NoIdText: string := "⚠️ Could not extract a valid ID from the input."
  const MalformedText: string := "Malformed API response."
  const NoLinkText: string := "No direct link found in response."
  const NetworkText: string := "⚠️ Network error — check your connection or try again later."
  const BlockedText: string := "⚠️ Request blocked — CORS or network issue. Consider using a server proxy."
  const DefaultText: string := "❌ Failed to fetch metadata. Please try again."
  const StatusPrefix: string := "API request failed with status "

  /** The message thrown for an answer whose status is not ok. */
  function StatusText(status: nat): string {
    StatusPrefix + Decimal(status)
  }

  // ---------------------------------------------------------------------------
  // The service's answer
  // ---------------------------------------------------------------------------

  /** How the body of an answer was read: `res.json()` rejected with a message,
      or gave a parsed value. */
  datatype Body = Unreadable(reason: string) | Parsed(value: Json)

  /** What the request came to: `fetch` rejected with a message (a network
      failure, a blocked cross-origin request), or the service answered. */
  datatype Outcome = Rejected(reason: string) | Answered(status: nat, body: Body)

  /** `res.ok`: the status is in the range 200 to 299. */
  predicate IsOk(status: nat) {
    200 <= status <= 299
  }

  /** How the try block ended: with the metadata to show, or by throwing an error with this message. */
  datatype Attempt = Loaded(value: Json) | Threw(message: string)

  /** The try block of fetchMeta after the request: the checks in the order the page makes them. */
  function Try(o: Outcome): Attempt {
    match o
    case Rejected(reason) => Threw(reason)
    case Answered(status, body) =>
      if !IsOk(status) then Threw(StatusText(status))
      else
        match body
        case Unreadable(reason) => Threw(reason)
        case Parsed(json) =>
          if !Truthy(json) || TypeOf(json) != "object" then Threw(MalformedText)
          else if !TruthyProperty(Property(json, "directlink")) then Threw(NoLinkText)
          else Loaded(json)
  }

  /** The catch block: the text shown for an error with this message. A
      network failure is recognised before a blocked request, and a message
      that is neither is shown as it is, or replaced by the default text when
      it is empty. */
  function Shown(message: string): (r: string)
    ensures r != ""
    ensures Contains(message, "NetworkError") ==> r == NetworkText
    ensures !Contains(message, "NetworkError") && Contains(message, "Failed to fetch") ==> r == BlockedText
    ensures !Contains(message, "NetworkError") && !Contains(message, "Failed to fetch") ==>
              r == if message == "" then DefaultText else message
  {
    if message != "" && Contains(message, "NetworkError") then NetworkText
    else if message != "" && Contains(message, "Failed to fetch") then BlockedText
    else if message != "" then message
    else DefaultText
  }

  /** An answer that the page accepts: an ok status, a body that parses to an
      object, and a truthy `directlink` in it. */
  ghost predicate Usable(o: Outcome) {
    o.Answered? && IsOk(o.status) && o.body.Parsed? && o.body.value.JObject?
    && "directlink" in o.body.value.fields && Truthy(o.body.value.fields["directlink"])
  }

  // ---------------------------------------------------------------------------
  // The component's state and the two steps of Inspect
  // ---------------------------------------------------------------------------

  /** The state fields of the component, as a value. */
  datatype View = View(videoId: string, loading: bool, error: string, data: Option<Json>)

  /** The state after the first step of Inspect, and the id asked for, if any. */
  datatype Start = Start(view: View, request: Option<string>)

  /** The first step of Inspect, up to the request. */
  function Begin(v: View): Start {
    var cleared := v.(error := "", data := None);
    var trimmed := Trim(v.videoId);
    if trimmed == [] then Start(cleared.(error := EmptyInputText), None)
    else
      var id := ExtractId(trimmed);
      if id == [] then Start(cleared.(error := NoIdText), None)
      else
        var shown := if id != trimmed then cleared.(videoId := id) else cleared;
        Start(shown.(loading := true), Some(id))
  }

  /** The second step of Inspect: the try block, the catch block and the finally block. */
  function Settle(v: View, o: Outcome): View {
    match Try(o)
    case Loaded(json) => v.(data := Some(json), loading := false)
    case Threw(message) => v.(error := Shown(message), loading := false)
  }

  /** A whole Inspect, given the answer the service gives if it is asked. */
  function Inspected(v: View, o: Outcome): View {
    var s := Begin(v);
    if s.request.Some? then Settle(s.view, o) else s.view
  }

  // ---------------------------------------------------------------------------
  // What Inspect does
  // ---------------------------------------------------------------------------

  /** The messages the proofs below tell apart. */
  lemma MessagesDiffer()
    ensures EmptyInputText != "" && NoIdText != "" && EmptyInputText != NoIdText
    ensures MalformedText != NoLinkText
  {
    assert |EmptyInputText| == 40 && |NoIdText| == 47;
    assert |MalformedText| == 23 && |NoLinkText| == 33;
  }

  /** A request is made exactly when extractId finds an id in the input, and
      it asks for that id; the message stays cleared exactly then. */
  lemma RequestIff(v: View)
    ensures Begin(v).request == if ExtractId(v.videoId) != [] then Some(ExtractId(v.videoId)) else None
    ensures Begin(v).view.error == "" <==> Begin(v).request.Some?
  {
    ExtractTrimmed(v.videoId);
    ExtractEmptyIff(v.videoId);
    MessagesDiffer();
  }

  /** The empty-input message appears exactly when the input is whitespace only. */
  lemma EmptyInputIff(v: View)
    ensures Begin(v).view.error == EmptyInputText
            <==> forall k :: 0 <= k < |v.videoId| ==> IsWhitespace(v.videoId[k])
  {
    TrimEmptyIff(v.videoId);
    MessagesDiffer();
  }

  /** The no-id message appears exactly when the input trims to slashes only. */
  lemma NoIdIff(v: View)
    ensures Begin(v).view.error == NoIdText
            <==> Trim(v.videoId) != [] && forall k :: 0 <= k < |Trim(v.videoId)| ==> Trim(v.videoId)[k] == '/'
  {
    TrimIdempotent(v.videoId);
    ExtractEmptyIff(Trim(v.videoId));
    MessagesDiffer();
  }

  /** The first step clears the metadata, starts loading only when it makes a
      request, and changes the input box only to the id it asks for; after a
      request the box holds that id, up to surrounding whitespace. */
  lemma BeginState(v: View)
    ensures Begin(v).view.data == None
    ensures Begin(v).view.loading == (Begin(v).request.Some? || v.loading)
    ensures Begin(v).view.videoId == v.videoId || Begin(v).request == Some(Begin(v).view.videoId)
    ensures Begin(v).request.Some? ==> Trim(Begin(v).view.videoId) == Begin(v).request.value
                                        || Begin(v).view.videoId == Begin(v).request.value
  {
  }

  /** The input box changes exactly when the id asked for is not the trimmed input. */
  lemma BoxChangesIff(v: View)
    ensures Begin(v).view.videoId != v.videoId
            <==> Begin(v).request.Some? && Begin(v).request.value != Trim(v.videoId)
  {
    var i := TrimSlice(v.videoId);
    TrimIdempotent(v.videoId);
    var t := Trim(v.videoId);
  }

  /** The try block completes exactly for a usable answer, and keeps its body. */
  lemma TryLoadedIff(o: Outcome)
    ensures Try(o).Loaded? <==> Usable(o)
    ensures Try(o).Loaded? ==> o.Answered? && o.body.Parsed? && Try(o).value == o.body.value
  {
    if o.Answered? && IsOk(o.status) && o.body.Parsed? {
      ObjectLike(o.body.value);
    }
  }

  /** A message that lacks one letter of each of the two needles, and is not
      empty, is shown as it is. */
  lemma ShownAsIs(message: string, n: nat, f: nat)
    requires message != ""
    requires n < |"NetworkError"| && forall k :: 0 <= k < |message| ==> message[k] != "NetworkError"[n]
    requires f < |"Failed to fetch"| && forall k :: 0 <= k < |message| ==> message[k] != "Failed to fetch"[f]
    ensures Shown(message) == message
  {
    AbsentChar(message, "NetworkError", n);
    AbsentChar(message, "Failed to fetch", f);
  }

  /** The prefix of the status message has neither a capital N nor a capital F. */
  lemma StatusPrefixLetters()
    ensures forall k :: 0 <= k < |StatusPrefix| ==> StatusPrefix[k] != 'N' && StatusPrefix[k] != 'F'
  {
  }

  /** A status outside 200 to 299 is thrown with its number, which reads back
      as the status, and the message is shown as it is. */
  lemma StatusReported(v: View, status: nat, body: Body)
    requires !IsOk(status)
    ensures Try(Answered(status, body)) == Threw(StatusText(status))
    ensures StatusText(status)[..|StatusPrefix|] == StatusPrefix
    ensures StatusText(status)[|StatusPrefix|..] == Decimal(status)
            && DecimalValue(StatusText(status)[|StatusPrefix|..]) == status
    ensures Settle(v, Answered(status, body)).error == StatusText(status)
  {
    var m := StatusText(status);
    var d := Decimal(status);
    assert m[|StatusPrefix|..] == d;
    DecimalRoundTrip(status);
    StatusPrefixLetters();
    forall k | 0 <= k < |m| ensures m[k] != 'N' && m[k] != 'F' {
      if k < |StatusPrefix| {
        assert m[k] == StatusPrefix[k];
      } else {
        assert m[k] == d[k - |StatusPrefix|];
      }
    }
    ShownAsIs(m, 0, 0);
  }

  /** The two checks on the parsed body: the malformed-response message is
      thrown exactly when the value is neither an array nor an object, an
      array never has a direct link, and an object fails with the no-link
      message exactly when its `directlink` is missing or falsy. */
  lemma BodyChecks(v: View, status: nat, json: Json)
    requires IsOk(status)
    ensures Try(Answered(status, Parsed(json))) == Threw(MalformedText) <==> !(json.JArray? || json.JObject?)
    ensures json.JArray? ==> Try(Answered(status, Parsed(json))) == Threw(NoLinkText)
    ensures json.JObject? ==>
              (Try(Answered(status, Parsed(json))) == Threw(NoLinkText) <==> !TruthyProperty(Property(json, "directlink")))
  {
    ObjectLike(json);
    MessagesDiffer();
  }

  /** A rejected request and an unreadable body of an ok answer reach the
      catch block with their own message. */
  lemma FailuresShown(v: View, m: string, status: nat)
    ensures Try(Rejected(m)) == Threw(m) && Settle(v, Rejected(m)).error == Shown(m)
    ensures IsOk(status) ==>
              Try(Answered(status, Unreadable(m))) == Threw(m) && Settle(v, Answered(status, Unreadable(m))).error == Shown(m)
    ensures Settle(v, Rejected(m)).loading == false && Settle(v, Rejected(m)).data == v.data
  {
  }

  /** The malformed-response message is shown as it is. */
  lemma MalformedShown()
    ensures Shown(MalformedText) == MalformedText
  {
    ShownAsIs(MalformedText, 0, 0);
  }

  /** The no-direct-link message is shown as it is. */
  lemma NoLinkShown()
    ensures Shown(NoLinkText) == NoLinkText
  {
    ShownAsIs(NoLinkText, 3, 0);
  }

  /** A whole Inspect shows metadata exactly when the input yields an id and
      the answer is usable, and then it is the answer's body; the message is
      empty exactly when the metadata is shown. */
  lemma InspectedOutcome(v: View, o: Outcome)
    ensures Inspected(v, o).data.Some? <==> ExtractId(v.videoId) != [] && Usable(o)
    ensures Inspected(v, o).data.Some? ==> o.Answered? && o.body.Parsed? && Inspected(v, o).data.value == o.body.value
    ensures Inspected(v, o).error == "" <==> Inspected(v, o).data.Some?
  {
    RequestIff(v);
    TryLoadedIff(o);
  }

  /** Loading is off after a whole Inspect, unless no request was made and it
      was on before. */
  lemma InspectedLoading(v: View, o: Outcome)
    ensures Inspected(v, o).loading == (v.loading && ExtractId(v.videoId) == [])
  {
    RequestIff(v);
  }

  /** The component. */
  class Page {
    var videoId: string
    var loading: bool
    var error: string
    var data: Option<Json>

    /** The state as first rendered. */
    constructor ()
      ensures Current() == View("", false, "", None)
    {
      videoId := "";
      loading := false;
      error := "";
      data := None;
    }

    function Current(): View
      reads this
    {
      View(videoId, loading, error, data)
    }

    /** The input box's change handler. */
    method Edit(text: string)
      modifies this
      ensures Current() == old(Current()).(videoId := text)
    {
      videoId := text;
    }

    /** clearInput: empties the input and the message; the metadata stays. */
    method ClearInput()
      modifies this
      ensures Current() == old(Current()).(videoId := "", error := "")
    {
      videoId := "";
      error := "";
    }

    /** fetchMeta up to its `await fetch`: returns the id it asks for, if any. */
    method StartInspect() returns (request: Option<string>)
      modifies this
      ensures Start(View(videoId, loading, error, data), request)
              == Begin(View(old(videoId), old(loading), old(error), old(data)))
    {
      error := "";
      data := None;
      var trimmed := Trim(videoId);
      if trimmed == [] {
        error := EmptyInputText;
        return None;
      }
      var id := ExtractId(trimmed);
      if id == [] {
        error := NoIdText;
        return None;
      }
      if id != trimmed {
        videoId := id;
      }
      loading := true;
      request := Some(id);
    }

    /** fetchMeta from its `await fetch` on, given what the request came to. */
    method FinishInspect(outcome: Outcome)
      modifies this
      ensures Current() == Settle(old(Current()), outcome)
    {
      var thrown: Option<string> := None;
      match outcome {
        case Rejected(reason) =>
          thrown := Some(reason);
        case Answered(status, body) =>
          if !IsOk(status) {
            thrown := Some(StatusText(status));
          } else {
            match body {
              case Unreadable(reason) =>
                thrown := Some(reason);
              case Parsed(json) =>
                if !Truthy(json) || TypeOf(json) != "object" {
                  thrown := Some(MalformedText);
                } else if !TruthyProperty(Property(json, "directlink")) {
                  thrown := Some(NoLinkText);
                } else {
                  data := Some(json);
                }
            }
          }
      }
      if thrown.Some? {
        error := Shown(thrown.value);
      }
      loading := false;
    }

    /** fetchMeta as a whole: both steps, the second only when a request is made. */
    method FetchMeta(outcome: Outcome) returns (request: Option<string>)
      modifies this
      ensures request == Begin(old(Current())).request
      ensures Current() == Inspected(old(Current()), outcome)
    {
      request := StartInspect();
      if request.Some? {
        FinishInspect(outcome);
      }
    }
  }
}
