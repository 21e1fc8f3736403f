/**
 The skill-list editor of the resume upload component: the skills received
 from an upload are stored sorted, a manually typed skill is trimmed and added
 unless it duplicates an existing one ignoring case, a skill can be removed,
 and the whole list can be cleared after confirmation.

 The component's state is a value and every handler a function from state to
 the next state. The `onExtracted` callback becomes the `notified` part of a
 step, and whether the parent passed one is the parameter `hasCallback`;
 `window.confirm` and `String.prototype.toLowerCase` are parameters too. An
 upload is two events, its start and its settling, so that overlapping
 uploads interleave as they do in the browser.
 */
module ResumeUpload {
  import opened Wrappers
  import opened LexOrder

  /** The state hooks the list logic uses. */
  datatype Editor = Editor(skills: seq<string>, manualSkill: string, attempted: bool, error: string)

  /** The state on first render. */
  const Initial: Editor := Editor([], "", false, "")

  /** The state after a handler, and the list passed to `onExtracted` if it was called. */
  datatype Step = Step(next: Editor, notified: Option<seq<string>>)

  /** How an upload request settled: a reply whose `skills` field may be missing, or an error message. */
  datatype UploadResult = Parsed(skills: Option<seq<string>>) | Failed(details: string)

  /** What `onExtracted && onExtracted(skills)` passes on: the list when the parent gave a callback, nothing otherwise. */
  function Report(hasCallback: bool, skills: seq<string>): Option<seq<string>> {
    if hasCallback then Some(skills) else None
  }

  /** The WhiteSpace and LineTerminator code points of ECMAScript, which `trim()` removes. */
  predicate IsJsSpace(c: char) {
    || ('\t' <= c <= '\r')
    || c == ' '
    || c == '\U{A0}'
    || c == '\U{1680}'
    || ('\U{2000}' <= c <= '\U{200A}')
    || c == '\U{2028}'
    || c == '\U{2029}'
    || c == '\U{202F}'
    || c == '\U{205F}'
    || c == '\U{3000}'
    || c == '\U{FEFF}'
  }

  predicate AllSpace(s: string) {
    forall i :: 0 <= i < |s| ==> IsJsSpace(s[i])
  }

  /** `s` without its leading whitespace: a suffix of `s` cut only at whitespace. */
  function TrimStart(s: string): (r: string)
    ensures |r| <= |s| && r == s[|s| - |r|..]
    ensures AllSpace(s[..|s| - |r|])
    ensures r != [] ==> !IsJsSpace(r[0])
  {
    if s != [] && IsJsSpace(s[0]) then
      var r := TrimStart(s[1..]);
      assert s[..|s| - |r|] == [s[0]] + s[1..][..|s[1..]| - |r|];
      r
    else s
  }

  /** `s` without its trailing whitespace: a prefix of `s` cut only at whitespace. */
  function TrimEnd(s: string): (r: string)
    ensures |r| <= |s| && r == s[..|r|]
    ensures AllSpace(s[|r|..])
    ensures r != [] ==> !IsJsSpace(r[|r| - 1])
  {
    if s != [] && IsJsSpace(s[|s| - 1]) then
      var init := s[..|s| - 1];
      var r := TrimEnd(init);
      assert s[|r|..] == init[|r|..] + [s[|s| - 1]];
      r
    else s
  }

  /** `String.prototype.trim`: `s` without its leading and trailing whitespace. */
  function Trim(s: string): (r: string)
    ensures |r| <= |s|
  {
    TrimEnd(TrimStart(s))
  }

  lemma SplitAround(s: string, k: nat, t: string, r: string)
    requires k <= |s| && t == s[k..] && |r| <= |t| && r == t[..|r|]
    ensures s == s[..k] + r + t[|r|..]
  {
    assert t == t[..|r|] + t[|r|..];
    assert s == s[..k] + s[k..];
  }

  /** A witness pair of whitespace around `r`. */
  lemma SurroundedBySpace(s: string, pre: string, r: string, post: string)
    requires s == pre + r + post && AllSpace(pre) && AllSpace(post)
    ensures exists pre, post :: s == pre + r + post && AllSpace(pre) && AllSpace(post)
  {
  }

  lemma TrimIsSlice(s: string)
    ensures exists pre, post :: s == pre + Trim(s) + post && AllSpace(pre) && AllSpace(post)
  {
    var t := TrimStart(s);
    var r := TrimEnd(t);
    SplitAround(s, |s| - |t|, t, r);
    SurroundedBySpace(s, s[..|s| - |t|], r, t[|r|..]);
  }

  lemma TrimEnds(s: string)
    ensures Trim(s) != [] ==> !IsJsSpace(Trim(s)[0]) && !IsJsSpace(Trim(s)[|Trim(s)| - 1])
  {
    var t := TrimStart(s);
    var r := TrimEnd(t);
    assert r != [] ==> r[0] == t[0];
  }

  lemma TrimEmpty(s: string)
    ensures Trim(s) == [] <==> AllSpace(s)
  {
    var t := TrimStart(s);
    var r := TrimEnd(t);
    if r == [] {
      assert t == [];
      assert s[..|s|] == s;
    } else {
      assert r[0] == t[0];
      assert s[|s| - |t|] == t[0];
    }
  }

  /**
   What `trim()` returns: `s` is some whitespace, then the result, then some
   whitespace; the result neither starts nor ends with whitespace, and it is
   empty exactly when `s` is all whitespace.
   */
  lemma TrimSlices(s: string)
    ensures exists pre, post :: s == pre + Trim(s) + post && AllSpace(pre) && AllSpace(post)
    ensures Trim(s) != [] ==> !IsJsSpace(Trim(s)[0]) && !IsJsSpace(Trim(s)[|Trim(s)| - 1])
    ensures Trim(s) == [] <==> AllSpace(s)
  {
    TrimIsSlice(s);
    TrimEnds(s);
    TrimEmpty(s);
  }

  /** Some listed skill equals `val` once both are lower-cased. */
  predicate HasCaseInsensitive(skills: seq<string>, val: string, lower: string -> string) {
    exists k :: 0 <= k < |skills| && lower(skills[k]) == lower(val)
  }

  /** No two listed skills are equal once lower-cased. */
  predicate NoCaseDuplicates(skills: seq<string>, lower: string -> string) {
    forall i, j :: 0 <= i < j < |skills| ==> lower(skills[i]) != lower(skills[j])
  }

  /** `a` is `b` with some elements left out, the rest in their order. */
  predicate Subsequence(a: seq<string>, b: seq<string>)
    decreases |b|
  {
    if a == [] then true
    else if b == [] then false
    else if a[0] == b[0] then Subsequence(a[1..], b[1..])
    else Subsequence(a, b[1..])
  }

  /** `skills.filter((s) => s !== skill)`. */
  function RemoveAll(skills: seq<string>, skill: string): (r: seq<string>)
    ensures skill !in r
    ensures forall x :: x != skill ==> multiset(r)[x] == multiset(skills)[x]
    ensures Subsequence(r, skills)
  {
    if skills == [] then []
    else
      var rest := RemoveAll(skills[1..], skill);
      assert skills == [skills[0]] + skills[1..];
      if skills[0] == skill then
        rest
      else
        var r := [skills[0]] + rest;
        assert r[1..] == rest;
        r
  }

  /** Dropping entries keeps a sorted list sorted. */
  lemma {:induction false} RemoveAllSorted(skills: seq<string>, skill: string)
    requires Sorted(skills)
    ensures Sorted(RemoveAll(skills, skill))
  {
    if skills != [] {
      var rest := RemoveAll(skills[1..], skill);
      RemoveAllSorted(skills[1..], skill);
      if skills[0] != skill {
        forall k | 0 <= k < |rest| ensures LessEq(skills[0], rest[k]) {
          assert rest[k] in multiset(rest);
          assert rest[k] in multiset(skills[1..]);
          var p :| 0 <= p < |skills[1..]| && skills[1..][p] == rest[k];
          assert skills[p + 1] == rest[k];
        }
        SortedCons(skills[0], rest);
      }
    }
  }

  /**
   The part of `uploadFile` that runs before the request is sent: without a
   file nothing happens; otherwise the attempt is recorded and any earlier
   error is cleared, while the list stays as it is until the reply.
   */
  function StartUpload(e: Editor, hasFile: bool): (s: Step)
    ensures s.next.skills == e.skills && s.next.manualSkill == e.manualSkill && s.notified == None
    ensures !hasFile ==> s.next == e
    ensures hasFile ==> s.next.attempted && s.next.error == ""
  {
    if hasFile then Step(e.(attempted := true, error := ""), None) else Step(e, None)
  }

  /**
   The part of `uploadFile` that runs when the request settles: a reply's
   skills (none if the field is missing) replace the list, sorted, and are
   reported; an error is recorded and the list kept. Nothing else changes,
   so an error left by another upload is not cleared by a success.
   */
  function FinishUpload(e: Editor, result: UploadResult, hasCallback: bool): (s: Step)
    ensures result.Parsed? ==>
      && Sorted(s.next.skills)
      && multiset(s.next.skills) == multiset(result.skills.GetOr([]))
      && s.next == e.(skills := s.next.skills)
      && s.notified == Report(hasCallback, s.next.skills)
    ensures result.Failed? ==> s == Step(e.(error := result.details), None)
  {
    match result
    case Parsed(skills) =>
      var sorted := Sort(skills.GetOr([]));
      Step(e.(skills := sorted), Report(hasCallback, sorted))
    case Failed(details) => Step(e.(error := details), None)
  }

  /** The text input's `onChange`: the typed text replaces the manual skill. */
  function TypeManualSkill(e: Editor, text: string): (s: Step)
    ensures s.next.manualSkill == text && s.next.skills == e.skills && s.notified == None
    ensures s.next == e.(manualSkill := s.next.manualSkill)
  {
    Step(e.(manualSkill := text), None)
  }

  /**
   `addManualSkill`: the trimmed input is ignored when empty, cleared when it
   matches a listed skill ignoring case, and otherwise added to the list,
   which is then sorted.
   */
  function AddManualSkill(e: Editor, lower: string -> string, hasCallback: bool): (s: Step)
    ensures Trim(e.manualSkill) == [] ==> s == Step(e, None)
    ensures Trim(e.manualSkill) != [] && HasCaseInsensitive(e.skills, Trim(e.manualSkill), lower) ==>
      s == Step(e.(manualSkill := ""), None)
    ensures Trim(e.manualSkill) != [] && !HasCaseInsensitive(e.skills, Trim(e.manualSkill), lower) ==>
      && Sorted(s.next.skills)
      && multiset(s.next.skills) == multiset(e.skills + [Trim(e.manualSkill)])
      && |s.next.skills| == |e.skills| + 1
      && (forall x :: x in e.skills ==> x in s.next.skills)
      && Trim(e.manualSkill) in s.next.skills
      && s.next == Editor(s.next.skills, "", true, e.error)
      && s.notified == Report(hasCallback, s.next.skills)
  {
    var val := Trim(e.manualSkill);
    if val == [] then Step(e, None)
    else if HasCaseInsensitive(e.skills, val, lower) then Step(e.(manualSkill := ""), None)
    else
      var updated := Sort(e.skills + [val]);
      assert |updated| == |multiset(updated)| == |e.skills + [val]|;
      assert forall x :: x in e.skills ==> x in multiset(e.skills + [val]);
      assert val in multiset(e.skills + [val]);
      Step(e.(skills := updated, manualSkill := "", attempted := true), Report(hasCallback, updated))
  }

  /** `removeSkill`: every entry equal to `skill` is dropped and the new list is reported. */
  function RemoveSkill(e: Editor, skill: string, hasCallback: bool): (s: Step)
    ensures multiset(s.next.skills) == multiset(e.skills)[skill := 0]
    ensures Subsequence(s.next.skills, e.skills)
    ensures s.next == e.(skills := s.next.skills)
    ensures s.notified == Report(hasCallback, s.next.skills)
  {
    var updated := RemoveAll(e.skills, skill);
    Step(e.(skills := updated), Report(hasCallback, updated))
  }

  /**
   `clearAll`: nothing happens on an empty list; otherwise the list is emptied
   and reported when the user confirms, and kept when they do not.
   */
  function ClearAll(e: Editor, confirmed: bool, hasCallback: bool): (s: Step)
    ensures |e.skills| == 0 ==> s == Step(e, None)
    ensures |e.skills| > 0 && confirmed ==> s == Step(e.(skills := []), Report(hasCallback, []))
    ensures |e.skills| > 0 && !confirmed ==> s == Step(e, None)
  {
    if |e.skills| == 0 then Step(e, None)
    else if confirmed then Step(e.(skills := []), Report(hasCallback, []))
    else Step(e, None)
  }

  /** Trimming twice trims nothing more. */
  lemma TrimIdempotent(s: string)
    ensures Trim(Trim(s)) == Trim(s)
  {
    var r := Trim(s);
    TrimEnds(s);
    if r != [] {
      assert TrimStart(r) == r;
      assert TrimEnd(r) == r;
    }
  }

  /** Removing a skill a second time changes nothing. */
  lemma {:induction false} RemoveAllIdempotent(skills: seq<string>, skill: string)
    ensures RemoveAll(RemoveAll(skills, skill), skill) == RemoveAll(skills, skill)
  {
    if skills != [] {
      RemoveAllIdempotent(skills[1..], skill);
      var rest := RemoveAll(skills[1..], skill);
      if skills[0] != skill {
        assert ([skills[0]] + rest)[1..] == rest;
      }
    }
  }

  /** `removeSkill` is idempotent on the list. */
  lemma RemoveSkillIdempotent(e: Editor, skill: string, hasCallback: bool)
    ensures RemoveSkill(RemoveSkill(e, skill, hasCallback).next, skill, hasCallback).next == RemoveSkill(e, skill, hasCallback).next
  {
    RemoveAllIdempotent(e.skills, skill);
  }

  /** A list without duplicates holds each value at most once. */
  lemma {:induction false} DistinctCount(t: seq<string>, x: string)
    requires forall i, j :: 0 <= i < j < |t| ==> t[i] != t[j]
    ensures multiset(t)[x] <= 1
  {
    if t != [] {
      DistinctCount(t[1..], x);
      assert t == [t[0]] + t[1..];
      if t[0] == x {
        assert x !in t[1..];
      }
    }
  }

  /** A value at two positions is counted at least twice. */
  lemma TwoPositions(u: seq<string>, i: int, j: int)
    requires 0 <= i < j < |u| && u[i] == u[j]
    ensures multiset(u)[u[i]] >= 2
  {
    assert u == u[..j] + [u[j]] + u[j + 1..];
    assert u[i] == u[..j][i];
    assert u[i] in multiset(u[..j]);
  }

  /** Reordering a list keeps it free of case-insensitive duplicates. */
  lemma PermutationKeepsNoCaseDuplicates(t: seq<string>, u: seq<string>, lower: string -> string)
    requires multiset(t) == multiset(u)
    requires NoCaseDuplicates(t, lower)
    ensures NoCaseDuplicates(u, lower)
  {
    forall i, j | 0 <= i < j < |u| ensures lower(u[i]) != lower(u[j]) {
      assert u[i] in multiset(t) && u[j] in multiset(t);
      var p :| 0 <= p < |t| && t[p] == u[i];
      var q :| 0 <= q < |t| && t[q] == u[j];
      if p == q {
        TwoPositions(u, i, j);
        DistinctCount(t, u[i]);
      }
    }
  }

  /**
   Adding a manual skill never introduces a case-insensitive duplicate, and
   afterwards the trimmed input is always listed up to case unless it was
   empty.
   */
  lemma AddKeepsNoCaseDuplicates(e: Editor, lower: string -> string, hasCallback: bool)
    requires NoCaseDuplicates(e.skills, lower)
    ensures NoCaseDuplicates(AddManualSkill(e, lower, hasCallback).next.skills, lower)
    ensures Trim(e.manualSkill) != [] ==>
      HasCaseInsensitive(AddManualSkill(e, lower, hasCallback).next.skills, Trim(e.manualSkill), lower)
  {
    var val := Trim(e.manualSkill);
    var s := AddManualSkill(e, lower, hasCallback);
    if val != [] && !HasCaseInsensitive(e.skills, val, lower) {
      var t := e.skills + [val];
      assert NoCaseDuplicates(t, lower) by {
        forall i, j | 0 <= i < j < |t| ensures lower(t[i]) != lower(t[j]) {
          if j == |e.skills| {
            assert t[i] == e.skills[i];
          }
        }
      }
      PermutationKeepsNoCaseDuplicates(t, s.next.skills, lower);
      var k :| 0 <= k < |s.next.skills| && s.next.skills[k] == val;
    }
  }

  /** Removing a skill never introduces a case-insensitive duplicate. */
  lemma {:induction false} RemoveKeepsNoCaseDuplicates(skills: seq<string>, skill: string, lower: string -> string)
    requires NoCaseDuplicates(skills, lower)
    ensures NoCaseDuplicates(RemoveAll(skills, skill), lower)
  {
    if skills != [] {
      var tail := skills[1..];
      assert NoCaseDuplicates(tail, lower) by {
        forall i, j | 0 <= i < j < |tail| ensures lower(tail[i]) != lower(tail[j]) {
          assert tail[i] == skills[i + 1] && tail[j] == skills[j + 1];
        }
      }
      var rest := RemoveAll(tail, skill);
      RemoveKeepsNoCaseDuplicates(tail, skill, lower);
      if skills[0] != skill {
        var r := [skills[0]] + rest;
        assert RemoveAll(skills, skill) == r;
        forall i, j | 0 <= i < j < |r| ensures lower(r[i]) != lower(r[j]) {
          if i == 0 {
            assert r[j] == rest[j - 1];
            assert rest[j - 1] in multiset(rest);
            var p :| 0 <= p < |tail| && tail[p] == r[j];
            assert skills[p + 1] == r[j];
          } else {
            assert r[i] == rest[i - 1] && r[j] == rest[j - 1];
          }
        }
      }
    }
  }

  /** Whatever the user does on the component, and the settling of its upload requests. */
  datatype Event =
    | UploadStarted(hasFile: bool)
    | UploadSettled(result: UploadResult)
    | Typed(text: string)
    | Added
    | Removed(skill: string)
    | Cleared(confirmed: bool)

  /**
   The handler an event runs. Only the list is ever reported, and nothing
   is reported when the parent passed no `onExtracted`.
   */
  function Apply(e: Editor, ev: Event, lower: string -> string, hasCallback: bool): (s: Step)
    ensures ev.Typed? || ev.UploadStarted? ==> s.next.skills == e.skills
    ensures s.notified.Some? ==> hasCallback && s.notified == Some(s.next.skills)
  {
    match ev
    case UploadStarted(hasFile) => StartUpload(e, hasFile)
    case UploadSettled(result) => FinishUpload(e, result, hasCallback)
    case Typed(text) => TypeManualSkill(e, text)
    case Added => AddManualSkill(e, lower, hasCallback)
    case Removed(skill) => RemoveSkill(e, skill, hasCallback)
    case Cleared(confirmed) => ClearAll(e, confirmed, hasCallback)
  }

  /** The state after a sequence of events. */
  function Run(e: Editor, events: seq<Event>, lower: string -> string, hasCallback: bool): (r: Editor)
    ensures events == [] ==> r == e
    decreases |events|
  {
    if events == [] then e else Run(Apply(e, events[0], lower, hasCallback).next, events[1..], lower, hasCallback)
  }

  /**
   Overlapping uploads: when a second upload starts before the first settles
   and fails, the first one's later success shows its skills beside the
   second one's error message.
   */
  lemma OverlappingUploads(e: Editor, skills: seq<string>, message: string, lower: string -> string, hasCallback: bool)
    ensures var r := Run(e, [UploadStarted(true), UploadStarted(true), UploadSettled(Failed(message)),
                             UploadSettled(Parsed(Some(skills)))], lower, hasCallback);
      && r.error == message && r.attempted
      && Sorted(r.skills) && multiset(r.skills) == multiset(skills)
  {
    var events := [UploadStarted(true), UploadStarted(true), UploadSettled(Failed(message)), UploadSettled(Parsed(Some(skills)))];
    var e1 := StartUpload(e, true).next;
    var e2 := StartUpload(e1, true).next;
    var e3 := FinishUpload(e2, Failed(message), hasCallback).next;
    var e4 := FinishUpload(e3, Parsed(Some(skills)), hasCallback).next;
    assert Run(e3, events[3..], lower, hasCallback) == Run(e4, [], lower, hasCallback);
    assert Run(e2, events[2..], lower, hasCallback) == Run(e3, events[3..], lower, hasCallback);
    assert Run(e1, events[1..], lower, hasCallback) == Run(e2, events[2..], lower, hasCallback);
    assert Run(e, events, lower, hasCallback) == Run(e1, events[1..], lower, hasCallback);
  }

  /** Every handler keeps the displayed list sorted. */
  lemma ApplyKeepsSorted(e: Editor, ev: Event, lower: string -> string, hasCallback: bool)
    requires Sorted(e.skills)
    ensures Sorted(Apply(e, ev, lower, hasCallback).next.skills)
  {
    if ev.Removed? {
      RemoveAllSorted(e.skills, ev.skill);
    }
  }

  /** From the first render on, whatever happens, the list is shown in sorted order. */
  lemma {:induction false} RunKeepsSorted(e: Editor, events: seq<Event>, lower: string -> string, hasCallback: bool)
    requires Sorted(e.skills)
    ensures Sorted(Run(e, events, lower, hasCallback).skills)
    decreases |events|
  {
    if events != [] {
      ApplyKeepsSorted(e, events[0], lower, hasCallback);
      RunKeepsSorted(Apply(e, events[0], lower, hasCallback).next, events[1..], lower, hasCallback);
    }
  }

  /** Starting from the first render, the list is always sorted. */
  lemma InitialRunSorted(events: seq<Event>, lower: string -> string, hasCallback: bool)
    ensures Sorted(Run(Initial, events, lower, hasCallback).skills)
  {
    RunKeepsSorted(Initial, events, lower, hasCallback);
  }
}
