/** The snackbar's screen-reader announcer (`announce`) and the legacy-engine probe
    (`isIE11`), as pure transitions over the state of the snackbar's root element, its
    label element and the restore callbacks waiting on the timer. */
module SnackbarUtil {
  import opened Dom
  import opened EcmaTrim

  const RoleAttr := "role"
  const AriaLiveAttr := "aria-live"

  /** The two named constants the announcer is configured with: the name of the label
      attribute that mirrors the text while it is hidden (`LABEL_TEXT_ATTR`) and the
      restore delay for the legacy engine (`ARIA_LIVE_IE11_DELAY_MS`). The attribute name
      is taken to be a valid, lower-case attribute name, so the DOM stores it as given. */
  datatype Config = Config(labelTextAttr: string, ie11DelayMs: nat)

  /** A restore scheduled by one `announce` call: the values that call captured and the
      delay it was scheduled with. */
  datatype PendingRestore = PendingRestore(
    role: Option<string>,
    priority: Option<string>,
    labelText: string,
    delayMs: nat)

  /** The root (live region) element, the label element and the scheduled restores in
      the order they will fire. */
  datatype Snackbar = Snackbar(rootEl: Element, labelEl: Element, pending: seq<PendingRestore>)

  /** `announce(rootEl, labelEl)`. `isLegacyEngine` is the answer of the legacy-engine
      probe for this call. A label that is empty or all whitespace leaves everything as
      it was; otherwise the region is silenced, the label cleared, its text mirrored into
      the marker attribute, and a restore of the values read at the start is queued. */
  function Announce(cfg: Config, s: Snackbar, isLegacyEngine: bool): (r: Snackbar)
    ensures AllWhiteSpace(s.labelEl.textContent) ==> r == s
    ensures !AllWhiteSpace(s.labelEl.textContent) ==>
      && GetAttribute(r.rootEl, RoleAttr) == Some("none")
      && GetAttribute(r.rootEl, AriaLiveAttr) == Some("off")
      && r.labelEl.textContent == ""
      && GetAttribute(r.labelEl, cfg.labelTextAttr) == Some(Trim(s.labelEl.textContent))
      && |r.pending| == |s.pending| + 1
      && r.pending[..|s.pending|] == s.pending
      && r.pending[|s.pending|].role == GetAttribute(s.rootEl, RoleAttr)
      && r.pending[|s.pending|].priority == GetAttribute(s.rootEl, AriaLiveAttr)
      && r.pending[|s.pending|].labelText == Trim(s.labelEl.textContent)
      && (isLegacyEngine ==> r.pending[|s.pending|].delayMs == cfg.ie11DelayMs)
      && (!isLegacyEngine ==> r.pending[|s.pending|].delayMs == 0)
    ensures forall n :: n != RoleAttr && n != AriaLiveAttr ==>
      GetAttribute(r.rootEl, n) == GetAttribute(s.rootEl, n)
    ensures forall n :: n != cfg.labelTextAttr ==> GetAttribute(r.labelEl, n) == GetAttribute(s.labelEl, n)
    ensures r.rootEl.textContent == s.rootEl.textContent
  {
    var role := GetAttribute(s.rootEl, RoleAttr);
    var priority := GetAttribute(s.rootEl, AriaLiveAttr);
    var labelText := Trim(s.labelEl.textContent);
    if labelText == [] then s
    else
      var rootEl := SetAttribute(SetAttribute(s.rootEl, RoleAttr, "none"), AriaLiveAttr, "off");
      var labelEl := SetAttribute(s.labelEl.(textContent := ""), cfg.labelTextAttr, labelText);
      var delay := if isLegacyEngine then cfg.ie11DelayMs else 0;
      Snackbar(rootEl, labelEl, s.pending + [PendingRestore(role, priority, labelText, delay)])
  }

  /** The restore at position `i` of the queue fires and leaves it: the region gets back
      the role and priority that call captured (an absent one comes back as the string
      "null"), the marker attribute goes and the label shows that call's trimmed text. */
  function FireRestoreAt(cfg: Config, s: Snackbar, i: nat): (r: Snackbar)
    requires i < |s.pending|
    ensures GetAttribute(r.rootEl, RoleAttr) == Some(AttributeValue(s.pending[i].role))
    ensures GetAttribute(r.rootEl, AriaLiveAttr) == Some(AttributeValue(s.pending[i].priority))
    ensures GetAttribute(r.labelEl, cfg.labelTextAttr) == None
    ensures r.labelEl.textContent == s.pending[i].labelText
    ensures r.pending == s.pending[..i] + s.pending[i + 1..]
    ensures forall n :: n != RoleAttr && n != AriaLiveAttr ==>
      GetAttribute(r.rootEl, n) == GetAttribute(s.rootEl, n)
    ensures forall n :: n != cfg.labelTextAttr ==> GetAttribute(r.labelEl, n) == GetAttribute(s.labelEl, n)
    ensures r.rootEl.textContent == s.rootEl.textContent
  {
    var p := s.pending[i];
    var rootEl := SetAttribute(SetAttribute(s.rootEl, RoleAttr, AttributeValue(p.role)),
                               AriaLiveAttr, AttributeValue(p.priority));
    var labelEl := RemoveAttribute(s.labelEl, cfg.labelTextAttr).(textContent := p.labelText);
    Snackbar(rootEl, labelEl, s.pending[..i] + s.pending[i + 1..])
  }

  /** The earliest scheduled restore fires, the order in which timers with equal delays
      run. */
  function FireRestore(cfg: Config, s: Snackbar): (r: Snackbar)
    requires s.pending != []
    ensures GetAttribute(r.rootEl, RoleAttr) == Some(AttributeValue(s.pending[0].role))
    ensures GetAttribute(r.rootEl, AriaLiveAttr) == Some(AttributeValue(s.pending[0].priority))
    ensures GetAttribute(r.labelEl, cfg.labelTextAttr) == None
    ensures r.labelEl.textContent == s.pending[0].labelText
    ensures r.pending == s.pending[1..]
    ensures forall n :: n != RoleAttr && n != AriaLiveAttr ==>
      GetAttribute(r.rootEl, n) == GetAttribute(s.rootEl, n)
    ensures forall n :: n != cfg.labelTextAttr ==> GetAttribute(r.labelEl, n) == GetAttribute(s.labelEl, n)
    ensures r.rootEl.textContent == s.rootEl.textContent
  {
    assert s.pending[..0] + s.pending[1..] == s.pending[1..];
    FireRestoreAt(cfg, s, 0)
  }

  /** The result of the legacy-engine probe and the body's child list afterwards. */
  datatype ProbeOutcome = ProbeOutcome(isLegacyEngine: bool, body: seq<NodeId>)

  /** `isIE11()`: a fresh detector node is appended to the body, its computed `position`
      is read, and it is removed again. The computed style is outside the model and comes
      in as `computedPosition`. The engine is the legacy one exactly when the detector is
      positioned "relative", and the body ends with the children it started with. */
  function IsIE11(body: seq<NodeId>, detector: NodeId, computedPosition: string): (r: ProbeOutcome)
    requires detector !in body
    ensures r.isLegacyEngine <==> computedPosition == "relative"
    ensures r.body == body
  {
    var withDetector := AppendChild(body, detector);
    var isIE := computedPosition == "relative";
    RemoveAppendedChild(body, detector);
    ProbeOutcome(isIE, RemoveChild(withDetector, detector))
  }
}
