/**
 * The summary printed by the GitHub activity tool (`display_activity` in
 * backend/github-user-activity/__main__.py): one line per event of the
 * API response, chosen by the event's `type`, or a fixed message when there
 * are no events.  Printing is modelled as the list of lines printed.
 */
module UserActivity {
  import opened Optional

  // ---------------------------------------------------------------------
  // Events
  // ---------------------------------------------------------------------

  /** The keys of an event's `payload` that the summary reads; each is
      `None` when the key is missing.  `commits` is kept as its length. */
  datatype Payload = Payload(commitCount: Option<nat>, action: Option<string>, refType: Option<string>)

  /** One event: its `type`, its `repo.name` and its `payload`. */
  datatype Event = Event(eventType: string, repoName: string, payload: Payload)

  const NO_ACTIVITY := "No recent activity found."

  // ---------------------------------------------------------------------
  // Text helpers with Python's meaning
  // ---------------------------------------------------------------------

  predicate IsUpper(c: char) { 'A' <= c <= 'Z' }

  predicate IsLower(c: char) { 'a' <= c <= 'z' }

  function ToUpper(c: char): char
  {
    if IsLower(c) then (c as int - 32) as char else c
  }

  function ToLower(c: char): char
  {
    if IsUpper(c) then (c as int + 32) as char else c
  }

  /** `s.capitalize()`: the first character in upper case and the rest in
      lower case; apart from case, every character is kept. */
  function Capitalize(s: string): (r: string)
    ensures |r| == |s|
    ensures forall i :: 0 <= i < |s| ==> ToLower(r[i]) == ToLower(s[i])
    ensures |r| > 0 ==> !IsLower(r[0])
    ensures forall i :: 0 < i < |r| ==> !IsUpper(r[i])
  {
    if s == [] then []
    else
      CaseMapping(s[0]);
      var rest := seq(|s| - 1, i requires 0 <= i < |s| - 1 => ToLower(s[i + 1]));
      assert forall i :: 0 <= i < |rest| ==> ToLower(rest[i]) == ToLower(s[i + 1]) && !IsUpper(rest[i]) by {
        forall i | 0 <= i < |rest|
          ensures ToLower(rest[i]) == ToLower(s[i + 1]) && !IsUpper(rest[i])
        {
          CaseMapping(s[i + 1]);
        }
      }
      [ToUpper(s[0])] + rest
  }

  /** Upper- and lower-casing a character change its case and nothing else. */
  lemma CaseMapping(c: char)
    ensures ToLower(ToUpper(c)) == ToLower(c) && !IsLower(ToUpper(c))
    ensures ToLower(ToLower(c)) == ToLower(c) && !IsUpper(ToLower(c))
  {
  }

  /** Capitalizing twice changes nothing more. */
  lemma CapitalizeIdempotent(s: string)
    ensures Capitalize(Capitalize(s)) == Capitalize(s)
  {
    var once := Capitalize(s);
    var twice := Capitalize(once);
    forall i | 0 <= i < |s|
      ensures twice[i] == once[i]
    {
    }
  }

  function DigitChar(d: nat): char
    requires d < 10
  {
    ('0' as int + d) as char
  }

  /** `str(n)` for a count: its decimal digits, without leading zeros. */
  function Decimal(n: nat): (s: string)
    ensures |s| >= 1 && forall i :: 0 <= i < |s| ==> '0' <= s[i] <= '9'
    ensures n == 0 <==> s == "0"
    ensures s[0] == '0' ==> |s| == 1
  {
    if n < 10 then [DigitChar(n)] else Decimal(n / 10) + [DigitChar(n % 10)]
  }

  /** The number a string of decimal digits denotes. */
  function DecimalValue(s: string): nat
    requires forall i :: 0 <= i < |s| ==> '0' <= s[i] <= '9'
  {
    if s == [] then 0
    else DecimalValue(s[..|s| - 1]) * 10 + (s[|s| - 1] as int - '0' as int)
  }

  /** The commit count can be read back from the printed digits. */
  lemma {:induction false} DecimalRoundTrip(n: nat)
    ensures DecimalValue(Decimal(n)) == n
  {
    if n >= 10 {
      DecimalRoundTrip(n / 10);
      var s := Decimal(n);
      assert s[..|s| - 1] == Decimal(n / 10);
    }
  }

  /** "Event" occurs somewhere in `s`: at its start or later on. */
  predicate HasEvent(s: string)
    decreases |s|
  {
    |s| >= 5 && (s[..5] == "Event" || HasEvent(s[1..]))
  }

  /** `s.replace("Event", "")`: the occurrences found scanning left to right
      are removed; a string without "Event" is left as it is. */
  function RemoveEvent(s: string): (r: string)
    ensures |r| <= |s| && (|s| - |r|) % 5 == 0
    ensures !HasEvent(s) ==> r == s
    decreases |s|
  {
    if |s| < 5 then s
    else if s[..5] == "Event" then RemoveEvent(s[5..])
    else [s[0]] + RemoveEvent(s[1..])
  }

  /** A trailing "Event" is removed without touching what comes before it:
      no proper prefix of "Event" is also a suffix of it, so no occurrence
      can straddle the join. */
  lemma {:induction false} RemoveEventSuffix(name: string)
    ensures RemoveEvent(name + "Event") == RemoveEvent(name)
    decreases |name|
  {
    if name == [] {
      assert (name + "Event")[5..] == [];
    } else if |name| >= 5 && name[..5] == "Event" {
      LeadingEventRemoved(name);
      RemoveEventSuffix(name[5..]);
    } else {
      FirstCharKept(name);
      RemoveEventSuffix(name[1..]);
    }
  }

  /** A leading "Event" is removed, with or without a trailing one. */
  lemma LeadingEventRemoved(name: string)
    requires |name| >= 5 && name[..5] == "Event"
    ensures RemoveEvent(name + "Event") == RemoveEvent(name[5..] + "Event")
    ensures RemoveEvent(name) == RemoveEvent(name[5..])
  {
    SplitConcat(name, "Event", 5);
    DropLeading(name + "Event");
    DropLeading(name);
  }

  /** A string not starting with "Event" keeps its first character, with or
      without a trailing "Event". */
  lemma FirstCharKept(name: string)
    requires name != [] && (|name| < 5 || name[..5] != "Event")
    ensures RemoveEvent(name + "Event") == [name[0]] + RemoveEvent(name[1..] + "Event")
    ensures RemoveEvent(name) == [name[0]] + RemoveEvent(name[1..])
  {
    StartNotEvent(name);
    SplitConcat(name, "Event", 1);
    KeepFirst(name + "Event");
    KeepFirstOf(name);
  }

  lemma KeepFirstOf(s: string)
    requires s != [] && (|s| < 5 || s[..5] != "Event")
    ensures RemoveEvent(s) == [s[0]] + RemoveEvent(s[1..])
  {
    if |s| < 5 {
      assert s == [s[0]] + s[1..];
    }
  }

  /** Cutting `a + b` at a point inside `a`. */
  lemma SplitConcat(a: string, b: string, n: nat)
    requires n <= |a|
    ensures (a + b)[..n] == a[..n] && (a + b)[n..] == a[n..] + b
    ensures n < |a| ==> (a + b)[n] == a[n]
  {
  }

  /** One step of `RemoveEvent` at a leading "Event". */
  lemma DropLeading(s: string)
    requires |s| >= 5 && s[..5] == "Event"
    ensures RemoveEvent(s) == RemoveEvent(s[5..])
  {
  }

  /** One step of `RemoveEvent` anywhere else. */
  lemma KeepFirst(s: string)
    requires |s| >= 5 && s[..5] != "Event"
    ensures RemoveEvent(s) == [s[0]] + RemoveEvent(s[1..])
  {
  }

  /** Appending "Event" to a non-empty string that does not start with
      "Event" gives a string that does not start with it either: "Event"
      starts with the only 'E' it has, so no shorter prefix of it can follow
      a character of the string and spell it. */
  lemma StartNotEvent(name: string)
    requires name != [] && (|name| < 5 || name[..5] != "Event")
    ensures |name + "Event"| >= 5 && (name + "Event")[..5] != "Event"
  {
    var s := name + "Event";
    if |name| < 5 {
      assert s[|name|] == 'E';
      var k := |name|;
      assert "Event"[k] != 'E' by {
        if k == 1 { } else if k == 2 { } else if k == 3 { } else { }
      }
    } else {
      assert s[..5] == name[..5];
    }
  }

  /** `replace` removes the first occurrence of "Event" and carries on after
      it: with `a` free of "Event", `a + "Event" + b` becomes `a` followed by
      what `b` becomes.  With the clause of `RemoveEvent` for strings without
      "Event", this fixes the result for every input. */
  lemma RemoveEventSplit(a: string, b: string)
    requires !HasEvent(a)
    ensures RemoveEvent(a + "Event" + b) == a + RemoveEvent(b)
  {
    var rest := "Event" + b;
    assert a + "Event" + b == a + rest;
    SplitConcat("Event", b, 5);
    EventFreePrefixKept(a, rest);
  }

  /** An "Event"-free prefix before an occurrence of "Event" is kept as it
      is, and that occurrence is removed. */
  lemma {:induction false} EventFreePrefixKept(a: string, rest: string)
    requires !HasEvent(a) && |rest| >= 5 && rest[..5] == "Event"
    ensures RemoveEvent(a + rest) == a + RemoveEvent(rest[5..])
    decreases |a|
  {
    if a == [] {
      assert a + rest == rest;
      DropLeading(rest);
    } else {
      assert RemoveEvent(a + rest) == [a[0]] + RemoveEvent(a[1..] + rest) by {
        StartNotEventBefore(a, rest);
        KeepFirst(a + rest);
        SplitConcat(a, rest, 1);
      }
      assert RemoveEvent(a[1..] + rest) == a[1..] + RemoveEvent(rest[5..]) by {
        EventFreePrefixKept(a[1..], rest);
      }
      assert a == [a[0]] + a[1..];
    }
  }

  /** A non-empty string that does not start with "Event", followed by a
      string that does, does not start with "Event". */
  lemma StartNotEventBefore(a: string, rest: string)
    requires a != [] && (|a| < 5 || a[..5] != "Event")
    requires |rest| >= 5 && rest[..5] == "Event"
    ensures |a + rest| >= 5 && (a + rest)[..5] != "Event"
  {
    StartNotEvent(a);
    forall j | 0 <= j < 5
      ensures (a + rest)[j] == (a + "Event")[j]
    {
      if j >= |a| {
        assert rest[j - |a|] == rest[..5][j - |a|];
      }
    }
    assert (a + rest)[..5] == (a + "Event")[..5];
  }

  ghost predicate EndsWith(s: string, suffix: string)
  {
    |suffix| <= |s| && s[|s| - |suffix|..] == suffix
  }

  // ---------------------------------------------------------------------
  // One event
  // ---------------------------------------------------------------------

  /** The branch taken for `e` reads a payload key that `e` lacks, so Python
      raises `KeyError`. */
  ghost predicate MissingPayload(e: Event)
  {
    || (e.eventType == "PushEvent" && e.payload.commitCount.None?)
    || (e.eventType == "IssuesEvent" && e.payload.action.None?)
    || (e.eventType == "CreateEvent" && e.payload.refType.None?)
  }

  /** `action` for one event: the `if`/`elif` chain on `event["type"]`, or
      `None` where the chosen branch raises `KeyError`.  Every line ends with
      the repository's name. */
  function Describe(e: Event): (r: Option<string>)
    ensures r.None? <==> MissingPayload(e)
    ensures r.Some? ==> EndsWith(r.value, e.repoName)
  {
    var repo := e.repoName;
    if e.eventType == "PushEvent" then
      match e.payload.commitCount
      case None => None
      case Some(n) => Some("Pushed " + Decimal(n) + " commit(s) to " + repo)
    else if e.eventType == "IssuesEvent" then
      match e.payload.action
      case None => None
      case Some(action) => Some(Capitalize(action) + " an issue in " + repo)
    else if e.eventType == "WatchEvent" then
      Some("Starred " + repo)
    else if e.eventType == "ForkEvent" then
      Some("Forked " + repo)
    else if e.eventType == "CreateEvent" then
      match e.payload.refType
      case None => None
      case Some(refType) => Some("Created " + refType + " in " + repo)
    else
      Some(RemoveEvent(e.eventType) + " in " + repo)
  }

  /** A push event with three commits. */
  lemma PushOfThreeCommits(repo: string, p: Payload)
    requires p.commitCount == Some(3)
    ensures Describe(Event("PushEvent", repo, p)) == Some("Pushed 3 commit(s) to " + repo)
  {
    assert "Pushed " + Decimal(3) + " commit(s) to " == "Pushed 3 commit(s) to ";
  }

  /** The fixed phrasings: an issue event reports its action capitalized,
      watch and fork events have fixed verbs, and a create event reports the
      kind of ref created; none of these depends on anything else. */
  lemma KnownTypeLines(repo: string, p: Payload)
    ensures p.action.Some? ==>
              Describe(Event("IssuesEvent", repo, p)) == Some(Capitalize(p.action.value) + " an issue in " + repo)
    ensures Describe(Event("WatchEvent", repo, p)) == Some("Starred " + repo)
    ensures Describe(Event("ForkEvent", repo, p)) == Some("Forked " + repo)
    ensures p.refType.Some? ==>
              Describe(Event("CreateEvent", repo, p)) == Some("Created " + p.refType.value + " in " + repo)
  {
  }

  /** The number in a push event's line is the number of its commits: the
      digits between "Pushed " and " commit(s) to " read back as the count. */
  lemma PushLineCount(e: Event)
    requires e.eventType == "PushEvent" && e.payload.commitCount.Some?
    ensures var line := Describe(e).value;
            && 21 + |e.repoName| <= |line|
            && var digits := line[7..|line| - 14 - |e.repoName|];
               && line == "Pushed " + digits + " commit(s) to " + e.repoName
               && (forall i :: 0 <= i < |digits| ==> '0' <= digits[i] <= '9')
               && DecimalValue(digits) == e.payload.commitCount.value
  {
    var n := e.payload.commitCount.value;
    var line := Describe(e).value;
    assert line == "Pushed " + Decimal(n) + " commit(s) to " + e.repoName;
    assert line[7..|line| - 14 - |e.repoName|] == Decimal(n);
    DecimalRoundTrip(n);
  }

  /** An event type outside the five known ones, made of a name without
      "Event" followed by "Event", is shown as that name in the repository:
      "FooEvent" gives "Foo in <repo>". */
  lemma UnknownTypeShowsName(name: string, repo: string, p: Payload)
    requires !HasEvent(name)
    requires name + "Event" !in {"PushEvent", "IssuesEvent", "WatchEvent", "ForkEvent", "CreateEvent"}
    ensures Describe(Event(name + "Event", repo, p)) == Some(name + " in " + repo)
  {
    RemoveEventSuffix(name);
  }

  /** Every event type outside the five known ones falls through to the
      last branch: the type with each "Event" removed, then the repository.
      With `RemoveEventSplit` this fixes the line for any such type. */
  lemma UnknownTypeLine(t: string, repo: string, p: Payload)
    requires t !in {"PushEvent", "IssuesEvent", "WatchEvent", "ForkEvent", "CreateEvent"}
    ensures Describe(Event(t, repo, p)) == Some(RemoveEvent(t) + " in " + repo)
  {
  }

  // ---------------------------------------------------------------------
  // The list of events
  // ---------------------------------------------------------------------

  /** What `display_activity` prints: its lines, and whether a `KeyError`
      ended the run part way. */
  datatype Printed = Printed(lines: seq<string>, stopped: bool)

  /** The loop over the events: one `- <action>` line per event, in order,
      until an event whose branch raises. */
  function EventLines(events: seq<Event>): (out: Printed)
    ensures |out.lines| <= |events|
    ensures forall i :: 0 <= i < |out.lines| ==>
              Describe(events[i]).Some? && out.lines[i] == "- " + Describe(events[i]).value
    ensures out.stopped <==> exists i :: 0 <= i < |events| && MissingPayload(events[i])
    ensures !out.stopped ==> |out.lines| == |events|
    ensures out.stopped ==> |out.lines| < |events| && MissingPayload(events[|out.lines|])
  {
    if events == [] then Printed([], false)
    else
      match Describe(events[0])
      case None => Printed([], true)
      case Some(action) =>
        var rest := EventLines(events[1..]);
        MissingAfterFirst(events);
        Printed(["- " + action] + rest.lines, rest.stopped)
  }

  /** An event of the list lacks a key its branch reads exactly when the
      first one does or one of the rest does. */
  lemma MissingAfterFirst(events: seq<Event>)
    requires events != []
    ensures forall i :: 0 <= i < |events| - 1 ==> events[1..][i] == events[i + 1]
    ensures (exists i :: 0 <= i < |events| && MissingPayload(events[i]))
            <==> MissingPayload(events[0]) || exists i :: 0 <= i < |events| - 1 && MissingPayload(events[1..][i])
  {
    if exists i :: 0 <= i < |events| && MissingPayload(events[i]) {
      var i :| 0 <= i < |events| && MissingPayload(events[i]);
      if i > 0 {
        assert events[1..][i - 1] == events[i];
      }
    }
  }

  /** `display_activity(events)`: a fixed message for an empty list,
      otherwise the event lines. */
  function DisplayActivity(events: seq<Event>): (out: Printed)
    ensures events == [] ==> out == Printed([NO_ACTIVITY], false)
    ensures events != [] ==> out == EventLines(events) && NO_ACTIVITY !in out.lines
    ensures events != [] && (forall i :: 0 <= i < |events| ==> !MissingPayload(events[i])) ==>
              && !out.stopped
              && |out.lines| == |events|
              && forall i :: 0 <= i < |events| ==> out.lines[i] == "- " + Describe(events[i]).value
  {
    if events == [] then Printed([NO_ACTIVITY], false)
    else
      var out := EventLines(events);
      assert forall i :: 0 <= i < |out.lines| ==> out.lines[i][0] == '-' != NO_ACTIVITY[0];
      out
  }
}
