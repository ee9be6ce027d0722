/** Properties of the announcer that span several transitions: one full announce/restore
    cycle, repeated and serialised cycles, overlapping calls, and an invariant over any
    interleaving of calls, timer firings and label writes. */
module AnnounceProperties {
  import opened Dom
  import opened EcmaTrim
  import opened SnackbarUtil

  /** The owner of the snackbar writing new text into the label (outside `announce`). */
  function WriteLabelText(s: Snackbar, text: string): (r: Snackbar)
    ensures r.labelEl.textContent == text
    ensures r.rootEl == s.rootEl && r.pending == s.pending
    ensures r.labelEl.attributes == s.labelEl.attributes
  {
    s.(labelEl := s.labelEl.(textContent := text))
  }

  /** A non-blank label, announced on an idle snackbar and followed by its restore, leaves
      the region with the role and priority read at the start (exactly, when both were
      present; an absent one comes back as "null"), the marker attribute gone, every other
      label attribute as it was, and the label showing the trimmed text. */
  lemma CycleRestoresState(cfg: Config, s: Snackbar, isLegacyEngine: bool)
    requires s.pending == []
    requires !AllWhiteSpace(s.labelEl.textContent)
    ensures Announce(cfg, s, isLegacyEngine).pending != []
    ensures var r := FireRestore(cfg, Announce(cfg, s, isLegacyEngine));
      && r.pending == []
      && GetAttribute(r.rootEl, RoleAttr) == Some(AttributeValue(GetAttribute(s.rootEl, RoleAttr)))
      && GetAttribute(r.rootEl, AriaLiveAttr) == Some(AttributeValue(GetAttribute(s.rootEl, AriaLiveAttr)))
      && (GetAttribute(s.rootEl, RoleAttr).Some? && GetAttribute(s.rootEl, AriaLiveAttr).Some?
          ==> r.rootEl == s.rootEl)
      && GetAttribute(r.labelEl, cfg.labelTextAttr) == None
      && (forall n :: n != cfg.labelTextAttr ==> GetAttribute(r.labelEl, n) == GetAttribute(s.labelEl, n))
      && r.labelEl.textContent == Trim(s.labelEl.textContent)
  {
    var a := Announce(cfg, s, isLegacyEngine);
    var r := FireRestore(cfg, a);
    if GetAttribute(s.rootEl, RoleAttr).Some? && GetAttribute(s.rootEl, AriaLiveAttr).Some? {
      forall n ensures GetAttribute(r.rootEl, n) == GetAttribute(s.rootEl, n) {
        if n != RoleAttr && n != AriaLiveAttr {
          assert GetAttribute(a.rootEl, n) == GetAttribute(s.rootEl, n);
        }
      }
      ElementExtensionality(r.rootEl, s.rootEl);
    }
  }

  /** Every scheduled restore fires, earliest first, with nothing else in between. */
  function FireAll(cfg: Config, s: Snackbar): (r: Snackbar)
    ensures r.pending == []
    decreases |s.pending|
  {
    if s.pending == [] then s else FireAll(cfg, FireRestore(cfg, s))
  }

  /** Once every queued restore has fired, the state is the one the last of them wrote:
      its role, priority and text, no marker, and every other attribute as before. */
  lemma {:induction false} FireAllEndsWithLastRestore(cfg: Config, s: Snackbar)
    requires s.pending != []
    ensures var r := FireAll(cfg, s);
      var p := s.pending[|s.pending| - 1];
      && GetAttribute(r.rootEl, RoleAttr) == Some(AttributeValue(p.role))
      && GetAttribute(r.rootEl, AriaLiveAttr) == Some(AttributeValue(p.priority))
      && GetAttribute(r.labelEl, cfg.labelTextAttr) == None
      && r.labelEl.textContent == p.labelText
      && (forall n :: n != RoleAttr && n != AriaLiveAttr ==>
            GetAttribute(r.rootEl, n) == GetAttribute(s.rootEl, n))
      && (forall n :: n != cfg.labelTextAttr ==> GetAttribute(r.labelEl, n) == GetAttribute(s.labelEl, n))
    decreases |s.pending|
  {
    var f := FireRestore(cfg, s);
    if f.pending != [] {
      assert f.pending[|f.pending| - 1] == s.pending[|s.pending| - 1];
      FireAllEndsWithLastRestore(cfg, f);
    } else {
      assert FireAll(cfg, f) == f;
    }
  }

  /** A call's own restore gives back what that call read, even when restores of earlier
      calls were still queued: once the queue has drained with no other call in between,
      the region holds the role and priority read at the start of the call (the region
      element is as before when both were present), the marker is gone, every other label
      attribute is as before and the label shows the trimmed text. */
  lemma QueuedCycleRestoresState(cfg: Config, s: Snackbar, isLegacyEngine: bool)
    requires !AllWhiteSpace(s.labelEl.textContent)
    ensures var r := FireAll(cfg, Announce(cfg, s, isLegacyEngine));
      && GetAttribute(r.rootEl, RoleAttr) == Some(AttributeValue(GetAttribute(s.rootEl, RoleAttr)))
      && GetAttribute(r.rootEl, AriaLiveAttr) == Some(AttributeValue(GetAttribute(s.rootEl, AriaLiveAttr)))
      && (GetAttribute(s.rootEl, RoleAttr).Some? && GetAttribute(s.rootEl, AriaLiveAttr).Some?
          ==> r.rootEl == s.rootEl)
      && GetAttribute(r.labelEl, cfg.labelTextAttr) == None
      && (forall n :: n != cfg.labelTextAttr ==> GetAttribute(r.labelEl, n) == GetAttribute(s.labelEl, n))
      && r.labelEl.textContent == Trim(s.labelEl.textContent)
  {
    var a := Announce(cfg, s, isLegacyEngine);
    var r := FireAll(cfg, a);
    FireAllEndsWithLastRestore(cfg, a);
    if GetAttribute(s.rootEl, RoleAttr).Some? && GetAttribute(s.rootEl, AriaLiveAttr).Some? {
      forall n ensures GetAttribute(r.rootEl, n) == GetAttribute(s.rootEl, n) {
        if n != RoleAttr && n != AriaLiveAttr {
          assert GetAttribute(a.rootEl, n) == GetAttribute(s.rootEl, n);
        }
      }
      assert r.rootEl.textContent == s.rootEl.textContent by {
        FireAllKeepsRootText(cfg, a);
      }
      ElementExtensionality(r.rootEl, s.rootEl);
    }
  }

  /** Restores never write the root element's own text. */
  lemma {:induction false} FireAllKeepsRootText(cfg: Config, s: Snackbar)
    ensures FireAll(cfg, s).rootEl.textContent == s.rootEl.textContent
    decreases |s.pending|
  {
    if s.pending != [] {
      FireAllKeepsRootText(cfg, FireRestore(cfg, s));
    }
  }

  /** Announcing the same text twice, each call followed by its restore, clears the label
      both times: the second call is not skipped because its text equals what the label
      already shows. */
  lemma RepeatedTextClearsEachTime(cfg: Config, s: Snackbar, legacy1: bool, legacy2: bool)
    requires s.pending == []
    requires !AllWhiteSpace(s.labelEl.textContent)
    ensures var t := Trim(s.labelEl.textContent);
      var s1 := Announce(cfg, s, legacy1);
      s1.pending != [] &&
      var s2 := FireRestore(cfg, s1);
      var s3 := Announce(cfg, s2, legacy2);
      s3.pending != [] &&
      var s4 := FireRestore(cfg, s3);
      && s1.labelEl.textContent == ""
      && s2.labelEl.textContent == t
      && s3.labelEl.textContent == ""
      && GetAttribute(s3.labelEl, cfg.labelTextAttr) == Some(t)
      && |s3.pending| == 1 && s3.pending[0].labelText == t
      && s4.labelEl.textContent == t
  {
    var t := Trim(s.labelEl.textContent);
    var s2 := FireRestore(cfg, Announce(cfg, s, legacy1));
    TrimIdempotent(s.labelEl.textContent);
    assert Trim(s2.labelEl.textContent) == t;
    assert !AllWhiteSpace(s2.labelEl.textContent);
  }

  /** A second call straight after the first, with no label write in between, does
      nothing: the first call left the label empty, so the blank-label guard returns. */
  lemma ImmediateSecondCallIsNoOp(cfg: Config, s: Snackbar, legacy1: bool, legacy2: bool)
    ensures Announce(cfg, Announce(cfg, s, legacy1), legacy2) == Announce(cfg, s, legacy1)
  {
    if !AllWhiteSpace(s.labelEl.textContent) {
      assert AllWhiteSpace(Announce(cfg, s, legacy1).labelEl.textContent);
    }
  }

  /** Two overlapping calls: after a first call, the owner writes a new label and calls
      again while the first restore is still pending. The second call therefore reads the
      silenced "none"/"off" values the first call set. Neither timer is cancelled; both
      calls get the same probe answer, so both restores have the same delay and fire in
      the order they were scheduled, the second one last, and the region is left
      silenced, whatever role and priority its owner gave it. */
  lemma OverlappingAnnouncesLeaveRegionSilenced(
    cfg: Config, s: Snackbar, text2: string, isLegacyEngine: bool)
    requires s.pending == []
    requires !AllWhiteSpace(s.labelEl.textContent) && !AllWhiteSpace(text2)
    ensures var s2 := Announce(cfg, WriteLabelText(Announce(cfg, s, isLegacyEngine), text2), isLegacyEngine);
      && |s2.pending| == 2
      && s2.pending[0].delayMs == s2.pending[1].delayMs
      && s2.pending[0].role == GetAttribute(s.rootEl, RoleAttr)
      && s2.pending[0].priority == GetAttribute(s.rootEl, AriaLiveAttr)
      && s2.pending[1].role == Some("none")
      && s2.pending[1].priority == Some("off")
      && var s4 := FireRestore(cfg, FireRestore(cfg, s2));
      && s4.pending == []
      && GetAttribute(s4.rootEl, RoleAttr) == Some("none")
      && GetAttribute(s4.rootEl, AriaLiveAttr) == Some("off")
      && s4.labelEl.textContent == Trim(text2)
  {
    var s1 := Announce(cfg, s, isLegacyEngine);
    var s2 := Announce(cfg, WriteLabelText(s1, text2), isLegacyEngine);
    assert s2.pending[0] == s1.pending[0];
  }

  /** Something that happens to the snackbar: an `announce` call (with the probe's answer),
      the scheduled restore at some position of the queue firing (timers with different
      delays need not fire in the order they were scheduled), or the owner writing the
      label. */
  datatype Event = Announced(isLegacyEngine: bool) | TimerFired(index: nat) | LabelWritten(text: string)

  function Step(cfg: Config, s: Snackbar, e: Event): Snackbar {
    match e
    case Announced(legacy) => Announce(cfg, s, legacy)
    case TimerFired(i) => if i < |s.pending| then FireRestoreAt(cfg, s, i) else s
    case LabelWritten(text) => WriteLabelText(s, text)
  }

  function Run(cfg: Config, s: Snackbar, events: seq<Event>): Snackbar
    decreases |events|
  {
    if events == [] then s else Run(cfg, Step(cfg, s, events[0]), events[1..])
  }

  /** A role/priority pair that is either the owner's or the silenced one. */
  predicate OwnerOrSilenced(role: Option<string>, priority: Option<string>, ownerRole: string, ownerPriority: string) {
    (role == Some(ownerRole) && priority == Some(ownerPriority))
    || (role == Some("none") && priority == Some("off"))
  }

  /** The region, and every restore waiting to fire, holds either the owner's role and
      priority or the silenced pair. */
  predicate RegionInvariant(s: Snackbar, ownerRole: string, ownerPriority: string) {
    && OwnerOrSilenced(GetAttribute(s.rootEl, RoleAttr), GetAttribute(s.rootEl, AriaLiveAttr),
                       ownerRole, ownerPriority)
    && forall i :: 0 <= i < |s.pending| ==>
         OwnerOrSilenced(s.pending[i].role, s.pending[i].priority, ownerRole, ownerPriority)
  }

  /** Every single event keeps the region invariant. */
  lemma StepKeepsRegionInvariant(cfg: Config, s: Snackbar, e: Event, ownerRole: string, ownerPriority: string)
    requires RegionInvariant(s, ownerRole, ownerPriority)
    ensures RegionInvariant(Step(cfg, s, e), ownerRole, ownerPriority)
  {
    var r := Step(cfg, s, e);
    match e
    case Announced(legacy) =>
      if !AllWhiteSpace(s.labelEl.textContent) {
        forall i | 0 <= i < |r.pending|
          ensures OwnerOrSilenced(r.pending[i].role, r.pending[i].priority, ownerRole, ownerPriority)
        {
          if i < |s.pending| {
            assert r.pending[i] == r.pending[..|s.pending|][i];
          }
        }
      }
    case TimerFired(j) =>
      if j < |s.pending| {
        assert OwnerOrSilenced(s.pending[j].role, s.pending[j].priority, ownerRole, ownerPriority);
        forall i | 0 <= i < |r.pending|
          ensures OwnerOrSilenced(r.pending[i].role, r.pending[i].priority, ownerRole, ownerPriority)
        {
          if i < j {
            assert r.pending[i] == s.pending[i];
          } else {
            assert r.pending[i] == s.pending[i + 1];
          }
        }
      }
    case LabelWritten(_) =>
  }

  /** However calls, timer firings and label writes interleave, the region never holds a
      role or priority other than its owner's or the silenced pair. */
  lemma {:induction false} RunKeepsRegionInvariant(
    cfg: Config, s: Snackbar, events: seq<Event>, ownerRole: string, ownerPriority: string)
    requires RegionInvariant(s, ownerRole, ownerPriority)
    ensures RegionInvariant(Run(cfg, s, events), ownerRole, ownerPriority)
    decreases |events|
  {
    if events != [] {
      StepKeepsRegionInvariant(cfg, s, events[0], ownerRole, ownerPriority);
      RunKeepsRegionInvariant(cfg, Step(cfg, s, events[0]), events[1..], ownerRole, ownerPriority);
    }
  }

  /** The owner writes `text` and calls `announce`; if that scheduled a restore, it fires
      before anything else happens. */
  function Cycle(cfg: Config, s: Snackbar, text: string, isLegacyEngine: bool): (r: Snackbar)
    requires s.pending == []
    ensures r.pending == []
  {
    var a := Announce(cfg, WriteLabelText(s, text), isLegacyEngine);
    if a.pending == [] then a else FireRestore(cfg, a)
  }

  /** A sequence of serialised cycles, one per (text, probe answer) request. */
  function Cycles(cfg: Config, s: Snackbar, requests: seq<(string, bool)>): (r: Snackbar)
    requires s.pending == []
    ensures r.pending == []
    decreases |requests|
  {
    if requests == [] then s
    else Cycles(cfg, Cycle(cfg, s, requests[0].0, requests[0].1), requests[1..])
  }

  /** When every call waits for the previous restore, the region ends exactly as its owner
      configured it (both attributes present), however many announcements were made. */
  lemma {:induction false} SerialCyclesRestoreRegion(cfg: Config, s: Snackbar, requests: seq<(string, bool)>)
    requires s.pending == []
    requires GetAttribute(s.rootEl, RoleAttr).Some? && GetAttribute(s.rootEl, AriaLiveAttr).Some?
    ensures Cycles(cfg, s, requests).rootEl == s.rootEl
    decreases |requests|
  {
    if requests != [] {
      var w := WriteLabelText(s, requests[0].0);
      var c := Cycle(cfg, s, requests[0].0, requests[0].1);
      if !AllWhiteSpace(w.labelEl.textContent) {
        CycleRestoresState(cfg, w, requests[0].1);
      }
      assert c.rootEl == s.rootEl;
      SerialCyclesRestoreRegion(cfg, c, requests[1..]);
    }
  }

  /** The worked example: region `role="status"`, `aria-live="polite"`, label
      "  Hello  ". Right after the call the region is silenced, the label empty and the
      marker holds "Hello"; after the restore the region is back to status/polite, the
      marker is gone and the label reads "Hello". */
  lemma HelloScenario(cfg: Config, isLegacyEngine: bool)
    ensures var s := Snackbar(Element(map[RoleAttr := "status", AriaLiveAttr := "polite"], ""),
                              Element(map[], "  Hello  "), []);
      var a := Announce(cfg, s, isLegacyEngine);
      && GetAttribute(a.rootEl, RoleAttr) == Some("none")
      && GetAttribute(a.rootEl, AriaLiveAttr) == Some("off")
      && a.labelEl.textContent == ""
      && GetAttribute(a.labelEl, cfg.labelTextAttr) == Some("Hello")
      && a.pending != []
      && var r := FireRestore(cfg, a);
      && GetAttribute(r.rootEl, RoleAttr) == Some("status")
      && GetAttribute(r.rootEl, AriaLiveAttr) == Some("polite")
      && r.labelEl.textContent == "Hello"
      && GetAttribute(r.labelEl, cfg.labelTextAttr) == None
  {
    var s := Snackbar(Element(map[RoleAttr := "status", AriaLiveAttr := "polite"], ""),
                      Element(map[], "  Hello  "), []);
    assert s.labelEl.textContent == "  " + "Hello" + "  ";
    TrimPadded("  ", "Hello", "  ");
    assert s.labelEl.textContent[2] == 'H';
    var a := Announce(cfg, s, isLegacyEngine);
    assert a.pending[0].role == Some("status");
    assert a.pending[0].priority == Some("polite");
  }
}
