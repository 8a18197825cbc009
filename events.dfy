/** The server-sent events of the streaming chat response, as tagged values. Each stands
    for one `data: ...` frame: `{"content": ...}`, `{"options": [...]}`, `{"error": ...}`
    or the literal `[DONE]` sentinel. */
module Events {

  datatype Event =
    | Content(text: string)
    | Options(options: seq<string>)
    | Error(message: string)
    | Done

  datatype Kind = ContentKind | OptionsKind | ErrorKind | DoneKind

  function KindOf(e: Event): Kind
  {
    match e
    case Content(_) => ContentKind
    case Options(_) => OptionsKind
    case Error(_) => ErrorKind
    case Done => DoneKind
  }

  /** The number of events of kind `k` in a log. */
  function Count(events: seq<Event>, k: Kind): nat
  {
    if events == [] then 0
    else Count(events[..|events| - 1], k) + (if KindOf(events[|events| - 1]) == k then 1 else 0)
  }

  lemma {:induction false} CountAppend(s: seq<Event>, t: seq<Event>, k: Kind)
    ensures Count(s + t, k) == Count(s, k) + Count(t, k)
  {
    if t == [] {
      assert s + t == s;
    } else {
      assert (s + t)[..|s + t| - 1] == s + t[..|t| - 1];
      CountAppend(s, t[..|t| - 1], k);
    }
  }

  lemma CountSingleton(e: Event, k: Kind)
    ensures Count([e], k) == if KindOf(e) == k then 1 else 0
  {
  }

  /** A log without any event of kind `k` counts none, and conversely. */
  lemma {:induction false} CountZero(events: seq<Event>, k: Kind)
    ensures Count(events, k) == 0 <==> forall i :: 0 <= i < |events| ==> KindOf(events[i]) != k
  {
    if events != [] {
      var init := events[..|events| - 1];
      CountZero(init, k);
      assert forall i :: 0 <= i < |init| ==> init[i] == events[i];
    }
  }

  /** One `Content` event per relayed chunk, in order. */
  function ContentEvents(parts: seq<string>): seq<Event>
  {
    if parts == [] then []
    else ContentEvents(parts[..|parts| - 1]) + [Content(parts[|parts| - 1])]
  }

  lemma {:induction false} ContentEventsAt(parts: seq<string>)
    ensures |ContentEvents(parts)| == |parts|
    ensures forall i :: 0 <= i < |parts| ==> ContentEvents(parts)[i] == Content(parts[i])
  {
    if parts != [] {
      ContentEventsAt(parts[..|parts| - 1]);
    }
  }

  lemma {:induction false} CountContentEvents(parts: seq<string>, k: Kind)
    ensures Count(ContentEvents(parts), k) == if k == ContentKind then |parts| else 0
  {
    if parts != [] {
      var init := parts[..|parts| - 1];
      CountContentEvents(init, k);
      CountAppend(ContentEvents(init), [Content(parts[|parts| - 1])], k);
      assert [Content(parts[|parts| - 1])][..0] == [];
    }
  }

  /** The payloads of the `Content` events of a log, in order. */
  function Payloads(events: seq<Event>): seq<string>
  {
    if events == [] then []
    else Payloads(events[..|events| - 1])
         + (match events[|events| - 1] case Content(t) => [t] case _ => [])
  }

  lemma {:induction false} PayloadsAppend(s: seq<Event>, t: seq<Event>)
    ensures Payloads(s + t) == Payloads(s) + Payloads(t)
  {
    if t == [] {
      assert s + t == s;
    } else {
      assert (s + t)[..|s + t| - 1] == s + t[..|t| - 1];
      PayloadsAppend(s, t[..|t| - 1]);
    }
  }

  lemma {:induction false} PayloadsOfContentEvents(parts: seq<string>)
    ensures Payloads(ContentEvents(parts)) == parts
  {
    if parts != [] {
      var init := parts[..|parts| - 1];
      PayloadsOfContentEvents(init);
      PayloadsAppend(ContentEvents(init), [Content(parts[|parts| - 1])]);
      assert [Content(parts[|parts| - 1])][..0] == [];
    }
  }

  /** A log without `Content` events has no payloads. */
  lemma {:induction false} PayloadsWithoutContent(events: seq<Event>)
    requires forall i :: 0 <= i < |events| ==> !events[i].Content?
    ensures Payloads(events) == []
  {
    if events != [] {
      PayloadsWithoutContent(events[..|events| - 1]);
    }
  }

  /** A log made of the `Content` events of `parts` followed by other kinds of events:
      the `Content` events come first, and their payloads are `parts`. */
  lemma ContentThenOthers(parts: seq<string>, tail: seq<Event>)
    requires forall i :: 0 <= i < |tail| ==> !tail[i].Content?
    ensures var events := ContentEvents(parts) + tail;
      && |events| == |parts| + |tail|
      && (forall i :: 0 <= i < |parts| ==> events[i] == Content(parts[i]))
      && (forall i :: |parts| <= i < |events| ==> !events[i].Content?)
      && Count(events, ContentKind) == |parts|
      && Payloads(events) == parts
  {
    var events := ContentEvents(parts) + tail;
    ContentEventsAt(parts);
    CountAppend(ContentEvents(parts), tail, ContentKind);
    CountContentEvents(parts, ContentKind);
    CountZero(tail, ContentKind);
    PayloadsAppend(ContentEvents(parts), tail);
    PayloadsOfContentEvents(parts);
    PayloadsWithoutContent(tail);
    assert events == ContentEvents(parts) + tail;
    assert Payloads(events) == parts + [];
  }
}
