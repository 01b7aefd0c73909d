/** A dialog button parameter: its label and whether it commits, decoded
    from the button's own sub-tree, and its one-line rendering. */
module ButtonParameter {
  import opened Xml

  datatype Button = Button(labelText: Option<string>, commit: bool)
  {
    /** "{role name}: {label}", or nothing when there is no label or it is
        empty. The result can be taken apart again into the role name and
        the label. */
    function Display(buttonType: string): (r: Option<string>)
      ensures r.None? <==> labelText.None? || labelText.value == ""
      ensures r.Some? ==>
        var name := RoleName(buttonType);
        && |r.value| == |name| + 2 + |labelText.value|
        && r.value[..|name|] == name
        && r.value[|name|..|name| + 2] == ": "
        && r.value[|name| + 2..] == labelText.value
    {
      if labelText.None? || labelText.value == "" then None
      else Some(RoleName(buttonType) + ": " + labelText.value)
    }
  }

  /** The display name of a button role; unknown roles show as themselves. */
  function RoleName(buttonType: string): (name: string)
    ensures buttonType !in {"Button1", "Button2", "Button3"} ==> name == buttonType
    ensures buttonType == "Button1" ==> name == "Default Button"
    ensures buttonType == "Button2" ==> name == "Button 2"
    ensures buttonType == "Button3" ==> name == "Button 3"
  {
    match buttonType
    case "Button1" => "Default Button"
    case "Button2" => "Button 2"
    case "Button3" => "Button 3"
    case _ => buttonType
  }

  /** The decoder's local state between two events. */
  datatype Walker = Walker(labelText: Option<string>, commit: bool, inText: bool, depth: int)

  /** State on entry: the label is seeded from the opening tag's `value`
      attribute; nothing else has been seen yet. */
  function Initial(start: Attributes): Walker
  {
    Walker(GetAttribute(start, "value"), false, false, 1)
  }

  /** The change one event makes to the state (stopping is decided by Run). */
  function Step(w: Walker, e: Event): (r: Walker)
    ensures r.depth == w.depth + Delta(e)
    ensures w.labelText.Some? ==> r.labelText == w.labelText
    ensures r.labelText != w.labelText ==> e.CData? && w.inText && r.labelText == Some(e.text) && e.text != ""
    ensures !(e.Start? || e.End? || e.CData?) ==> r == w
  {
    match e
    case Start(name, attrs) =>
      var inText := if name == "Text" then true else w.inText;
      var commit := if name == "Boolean" && "value" in attrs then attrs["value"] == "True" else w.commit;
      Walker(w.labelText, commit, inText, w.depth + 1)
    case CData(text) =>
      if w.inText && w.labelText.None? && text != "" then w.(labelText := Some(text)) else w
    case End(name) =>
      w.(inText := if name == "Text" then false else w.inText, depth := w.depth - 1)
    case _ => w
  }

  /** What a decode produced, and where it left the reader. */
  datatype Decoded = Decoded(button: Button, pos: nat)

  /** The decode loop as a function of the stream: from position `p` in
      state `w`, pull events until the close tag that brings the depth to
      zero, or until the end of input. */
  function Run(es: seq<Event>, p: nat, w: Walker): (r: Decoded)
    requires p <= |es|
    ensures p <= r.pos <= |es|
    decreases |es| - p
  {
    if AtEof(es, p) then Decoded(Button(w.labelText, w.commit), p)
    else
      var next := Step(w, es[p]);
      if es[p].End? && next.depth == 0 then Decoded(Button(next.labelText, next.commit), p + 1)
      else Run(es, p + 1, next)
  }

  // Reference definitions of what the loop tracks, read backwards from a
  // position: the most recent marker decides.

  /** Whether position `i` lies inside a `Text` element: the last `Text`
      open or close tag in `es[p..i]` decides, `init` if there is none. */
  function InTextAt(es: seq<Event>, p: nat, i: nat, init: bool): bool
    requires p <= i <= |es|
    decreases i
  {
    if i == p then init
    else
      var e := es[i - 1];
      if e.Start? && e.name == "Text" then true
      else if e.End? && e.name == "Text" then false
      else InTextAt(es, p, i - 1, init)
  }

  predicate SetsCommit(e: Event)
  {
    e.Start? && e.name == "Boolean" && "value" in e.attrs
  }

  /** The commit flag after `es[p..i]`: the value of the last `Boolean`
      opening tag that carries a `value`, `init` if there is none. */
  function CommitAt(es: seq<Event>, p: nat, i: nat, init: bool): bool
    requires p <= i <= |es|
    decreases i
  {
    if i == p then init
    else if SetsCommit(es[i - 1]) then es[i - 1].attrs["value"] == "True"
    else CommitAt(es, p, i - 1, init)
  }

  /** `es[i]` is a non-empty CDATA block inside a `Text` element. */
  predicate LabelCandidate(es: seq<Event>, p: nat, i: nat, inText: bool)
    requires p <= i < |es|
  {
    es[i].CData? && es[i].text != "" && InTextAt(es, p, i, inText)
  }

  lemma {:induction false} InTextShift(es: seq<Event>, p: nat, i: nat, init: bool)
    requires p < i <= |es|
    ensures InTextAt(es, p, i, init) == InTextAt(es, p + 1, i, Step(Walker(None, false, init, 0), es[p]).inText)
    decreases i
  {
    if i > p + 1 {
      InTextShift(es, p, i - 1, init);
    }
  }

  lemma {:induction false} CommitShift(es: seq<Event>, p: nat, i: nat, init: bool)
    requires p < i <= |es|
    ensures CommitAt(es, p, i, init) == CommitAt(es, p + 1, i, Step(Walker(None, init, false, 0), es[p]).commit)
    decreases i
  {
    if i > p + 1 {
      CommitShift(es, p, i - 1, init);
    }
  }

  /** The decode stops exactly where the plain depth walk stops. */
  lemma {:induction false} RunStopsWithWalk(es: seq<Event>, p: nat, w: Walker)
    requires p <= |es|
    ensures Run(es, p, w).pos == Walk(es, p, w.depth).pos
    decreases |es| - p
  {
    if !AtEof(es, p) {
      var next := Step(w, es[p]);
      if !(es[p].End? && next.depth == 0) {
        RunStopsWithWalk(es, p + 1, next);
      }
    }
  }

  /** On well-formed input the decode ends just past the button's own
      matching close tag. */
  lemma StopsAtMatchingClose(es: seq<Event>, p: nat, q: nat, start: Attributes)
    requires p <= |es|
    requires MatchingClose(es, p, q)
    ensures Run(es, p, Initial(start)).pos == q
  {
    RunStopsWithWalk(es, p, Initial(start));
    WalkFindsMatchingClose(es, p, q);
  }

  /** Once a label is known (from the `value` attribute), no CDATA replaces it. */
  lemma {:induction false} LabelKept(es: seq<Event>, p: nat, w: Walker)
    requires p <= |es|
    requires w.labelText.Some?
    ensures Run(es, p, w).button.labelText == w.labelText
    decreases |es| - p
  {
    if !AtEof(es, p) {
      var next := Step(w, es[p]);
      if !(es[p].End? && next.depth == 0) {
        LabelKept(es, p + 1, next);
      }
    }
  }

  /** The `value` attribute of the opening tag, even an empty one, is the
      label, whatever the sub-tree holds. */
  lemma AttributeLabelWins(es: seq<Event>, p: nat, start: Attributes)
    requires p <= |es|
    requires "value" in start
    ensures Run(es, p, Initial(start)).button.labelText == Some(start["value"])
  {
    LabelKept(es, p, Initial(start));
  }

  /** Without a seeded label, the label is the first non-empty CDATA block
      inside a `Text` element among the consumed events, and absent when
      there is none. */
  lemma {:induction false} LabelIsFirstTextCData(es: seq<Event>, p: nat, w: Walker)
    requires p <= |es|
    requires w.labelText.None?
    ensures var r := Run(es, p, w);
      && (r.button.labelText.None? <==> forall i :: p <= i < r.pos ==> !LabelCandidate(es, p, i, w.inText))
      && (r.button.labelText.Some? ==>
            exists i :: p <= i < r.pos && LabelCandidate(es, p, i, w.inText) && es[i].text == r.button.labelText.value
                        && forall j :: p <= j < i ==> !LabelCandidate(es, p, j, w.inText))
    decreases |es| - p
  {
    var r := Run(es, p, w);
    if !AtEof(es, p) {
      var next := Step(w, es[p]);
      if LabelCandidate(es, p, p, w.inText) {
        LabelKept(es, p + 1, next);
        assert r.button.labelText == Some(es[p].text);
      } else {
        assert next.labelText.None?;
        if !(es[p].End? && next.depth == 0) {
          var p1 := p + 1;
          assert r == Run(es, p1, next);
          LabelIsFirstTextCData(es, p1, next);
          forall i | p1 <= i < r.pos
            ensures LabelCandidate(es, p, i, w.inText) == LabelCandidate(es, p1, i, next.inText)
          {
            InTextShift(es, p, i, w.inText);
            assert Step(Walker(None, false, w.inText, 0), es[p]).inText == next.inText;
          }
          if forall i :: p <= i < r.pos ==> !LabelCandidate(es, p, i, w.inText) {
            forall i | p1 <= i < r.pos
              ensures !LabelCandidate(es, p1, i, next.inText)
            {
              assert !LabelCandidate(es, p, i, w.inText);
            }
          }
          if r.button.labelText.None? {
            assert forall i :: p1 <= i < r.pos ==> !LabelCandidate(es, p1, i, next.inText);
          }
        }
      }
    }
  }

  /** The last `Boolean` with a `value` among the consumed events decides
      `commit`, whether it says "True" or not. */
  lemma {:induction false} CommitIsLastBoolean(es: seq<Event>, p: nat, w: Walker)
    requires p <= |es|
    ensures var r := Run(es, p, w); r.button.commit == CommitAt(es, p, r.pos, w.commit)
    decreases |es| - p
  {
    var r := Run(es, p, w);
    if !AtEof(es, p) {
      var next := Step(w, es[p]);
      CommitShift(es, p, r.pos, w.commit);
      assert Step(Walker(None, w.commit, false, 0), es[p]).commit == next.commit;
      if !(es[p].End? && next.depth == 0) {
        CommitIsLastBoolean(es, p + 1, next);
      }
    }
  }

  /** Decodes a button whose opening tag (with attributes `start`) the
      reader has just consumed, leaving the reader past its close tag. */
  method FromXml(r: Reader, start: Attributes) returns (b: Button)
    requires r.Valid()
    modifies r
    ensures r.Valid()
    ensures var d := Run(r.events, old(r.pos), Initial(start)); b == d.button && r.pos == d.pos
    ensures r.pos == Walk(r.events, old(r.pos), 1).pos
    ensures "value" in start ==> b.labelText == Some(start["value"])
    ensures b.commit == CommitAt(r.events, old(r.pos), r.pos, false)
  {
    var labelText := GetAttribute(start, "value");
    var commit := false;
    var inText := false;
    var depth := 1;
    ghost var p0 := r.pos;
    while true
      invariant r.Valid() && p0 <= r.pos
      invariant depth == DepthAt(r.events, p0, r.pos, 1)
      invariant Run(r.events, p0, Initial(start)) == Run(r.events, r.pos, Walker(labelText, commit, inText, depth))
      decreases |r.events| - r.pos
    {
      var e := r.Next();
      match e
      case Err => continue;
      case Eof => break;
      case Start(name, attrs) =>
        depth := depth + 1;
        if name == "Text" {
          inText := true;
        } else if name == "Boolean" {
          var val := GetAttribute(attrs, "value");
          if val.Some? {
            commit := val.value == "True";
          }
        }
      case CData(text) =>
        if inText && labelText.None? {
          if text != "" {
            labelText := Some(text);
          }
        }
      case End(name) =>
        if name == "Text" {
          inText := false;
        }
        depth := depth - 1;
        if depth == 0 {
          break;
        }
      case _ =>
    }
    b := Button(labelText, commit);
    RunStopsWithWalk(r.events, p0, Initial(start));
    CommitIsLastBoolean(r.events, p0, Initial(start));
    if "value" in start {
      AttributeLabelWins(r.events, p0, start);
    }
  }
}
