/** A dialog input field parameter: the target it fills, its label and
    whether it is a password field, decoded from the field's sub-tree with
    the help of the Target and Calculation decoders, and its rendering. */
module DialogFieldParameter {
  import opened Xml
  import opened Collaborators

  datatype DialogField = DialogField(target: Option<string>, labelText: Option<string>, password: bool)
  {
    /** The clauses of the rendering, in order: the input clause, then the
        label clause when there is a non-empty label, then "Password". */
    function Clauses(fieldType: string): (parts: seq<string>)
      requires target.Some?
      ensures var n := FieldNumber(fieldType);
        && |parts| == 1 + (if HasLabel() then 1 else 0) + (if password then 1 else 0)
        && parts[0] == "Input " + n + ": " + target.value
        && (HasLabel() ==> parts[1] == "Label " + n + ": " + labelText.value)
        && (password ==> parts[|parts| - 1] == "Password")
    {
      var n := FieldNumber(fieldType);
      var input := ["Input " + n + ": " + target.value];
      var withLabel := if HasLabel() then input + ["Label " + n + ": " + labelText.value] else input;
      if password then withLabel + ["Password"] else withLabel
    }

    predicate HasLabel()
    {
      labelText.Some? && labelText.value != ""
    }

    /** The clauses joined by " ; ", or nothing when there is no target,
        whatever the label and the password flag hold. */
    function Display(fieldType: string): (r: Option<string>)
      ensures r.None? <==> target.None?
      ensures r.Some? ==> r.value == Join(Clauses(fieldType), " ; ")
    {
      if target.None? then None else Some(Join(Clauses(fieldType), " ; "))
    }
  }

  /** The number a field role shows; unknown roles show "?". */
  function FieldNumber(fieldType: string): (n: string)
    ensures fieldType == "Field1" ==> n == "1"
    ensures fieldType == "Field2" ==> n == "2"
    ensures fieldType == "Field3" ==> n == "3"
    ensures n == "?" <==> fieldType !in {"Field1", "Field2", "Field3"}
  {
    match fieldType
    case "Field1" => "1"
    case "Field2" => "2"
    case "Field3" => "3"
    case _ => "?"
  }

  /** The parts one after another with `sep` between neighbours. */
  function Join(parts: seq<string>, sep: string): (s: string)
    ensures |parts| == 1 ==> s == parts[0]
    ensures |parts| >= 1 ==> |parts[0]| <= |s| && s[..|parts[0]|] == parts[0]
    decreases |parts|
  {
    if |parts| == 0 then ""
    else if |parts| == 1 then parts[0]
    else
      var init := Join(parts[..|parts| - 1], sep);
      assert parts[..|parts| - 1][0] == parts[0];
      init + sep + parts[|parts| - 1]
  }

  /** The rendering written out: the input clause, then " ; " and the
      label clause when the label is present and non-empty, then
      " ; Password" when the field is a password field. */
  lemma DisplayFormat(f: DialogField, fieldType: string)
    requires f.target.Some?
    ensures var n := FieldNumber(fieldType);
      f.Display(fieldType) == Some(
        "Input " + n + ": " + f.target.value
        + (if f.HasLabel() then " ; " + ("Label " + n + ": " + f.labelText.value) else "")
        + (if f.password then " ; " + "Password" else ""))
  {
    var n := FieldNumber(fieldType);
    var parts := f.Clauses(fieldType);
    var input := "Input " + n + ": " + f.target.value;
    var sep := " ; ";
    if f.HasLabel() {
      var lab := "Label " + n + ": " + f.labelText.value;
      assert [input, lab][..1] == [input];
      assert Join([input, lab], sep) == input + sep + lab;
      if f.password {
        assert parts == [input, lab, "Password"];
        assert parts[..2] == [input, lab];
        assert Join(parts, sep) == input + sep + lab + sep + "Password";
        assert input + sep + lab + sep + "Password" == input + (sep + lab) + (sep + "Password");
      } else {
        assert parts == [input, lab];
        assert input + sep + lab == input + (sep + lab) + "";
      }
    } else if f.password {
      assert parts == [input, "Password"];
      assert parts[..1] == [input];
      assert Join(parts, sep) == input + sep + "Password";
      assert input + sep + "Password" == input + "" + (sep + "Password");
    } else {
      assert parts == [input];
      assert input == input + "" + "";
    }
  }

  /** Which collaborator a nested opening tag is handed to, if any: a
      `Parameter` whose `type` is "Target" or "Label". */
  datatype Delegate = ToTarget | ToCalculation

  function HandoffOf(e: Event): Option<Delegate>
  {
    if e.Start? && e.name == "Parameter" && GetAttribute(e.attrs, "type") == Some("Target") then Some(ToTarget)
    else if e.Start? && e.name == "Parameter" && GetAttribute(e.attrs, "type") == Some("Label") then Some(ToCalculation)
    else None
  }

  /** A `Boolean` opening tag marking the field as a password. */
  predicate MarksPassword(e: Event)
  {
    && e.Start? && e.name == "Boolean"
    && GetAttribute(e.attrs, "type") == Some("Password")
    && GetAttribute(e.attrs, "value") == Some("True")
  }

  /** What the decode loop did with one stretch of the stream: read one
      event itself, or hand a nested element (its opening tag and the
      sub-tree the collaborator consumed) to a collaborator. */
  datatype Visit =
    | Read(e: Event)
    | Handoff(kind: Delegate, start: Event, sub: seq<Event>, result: Result<Option<string>>)

  /** The events a log of visits accounts for, in order. */
  function Covered(log: seq<Visit>): seq<Event>
  {
    if log == [] then []
    else
      var head := match log[0] case Read(e) => [e] case Handoff(_, s, sub, _) => [s] + sub;
      head + Covered(log[1..])
  }

  /** The value a field ends with after `log`, starting from `init`: the
      result of the last successful hand-off of this kind. */
  function LastResult(log: seq<Visit>, kind: Delegate, init: Option<string>): Option<string>
    decreases |log|
  {
    if log == [] then init
    else
      var v := log[|log| - 1];
      if v.Handoff? && v.kind == kind && v.result.Ok? then v.result.value
      else LastResult(log[..|log| - 1], kind, init)
  }

  /** What a decode produced, where it left the reader, and its visits. */
  datatype Decoded = Decoded(field: DialogField, pos: nat, log: seq<Visit>)

  function Chosen(kind: Delegate, target: Decoder, calculation: Decoder): Decoder
  {
    if kind == ToTarget then target else calculation
  }

  /** The effect of a hand-off's result on the field: a success replaces
      the target (or label) with the collaborator's display string, even an
      absent one; a failure changes nothing. */
  function Apply(f: DialogField, kind: Delegate, result: Result<Option<string>>): DialogField
  {
    if result.Failure? then f
    else if kind == ToTarget then f.(target := result.value)
    else f.(labelText := result.value)
  }

  /** One turn of the decode loop, from the event at `p`: what it visited,
      where the next turn starts, the field and depth after it, and whether
      the loop stops here (the close tag that brings the depth to zero). */
  datatype Move = Move(visit: Visit, next: nat, field: DialogField, depth: int, stop: bool)

  function Advance(es: seq<Event>, p: nat, f: DialogField, depth: int, target: Decoder, calculation: Decoder): (t: Move)
    requires p < |es|
    ensures p < t.next <= |es|
    ensures t.visit.Read? <==> HandoffOf(es[p]).None?
    ensures t.visit.Read? ==>
      && t.next == p + 1
      && t.field.target == f.target && t.field.labelText == f.labelText
      && (f.password ==> t.field.password)
    ensures t.visit.Handoff? ==>
      && !t.stop && t.depth == depth
      && t.field.password == f.password
      && (t.visit.kind == ToTarget ==> t.field.labelText == f.labelText)
      && (t.visit.kind == ToCalculation ==> t.field.target == f.target)
      && (Walk(es, p + 1, 1).closed ==> MatchingClose(es, p + 1, t.next))
  {
    var e := es[p];
    match HandoffOf(e)
    case Some(kind) =>
      // the collaborator consumes the sub-tree; the depth rose on the
      // opening tag and is corrected back down once it returns
      var q := Walk(es, p + 1, 1).pos;
      WalkFindsMatchingClose(es, p + 1, q);
      var result := Chosen(kind, target, calculation)(e.attrs, es[p + 1..q]);
      Move(Handoff(kind, e, es[p + 1..q], result), q, Apply(f, kind, result), depth, false)
    case None =>
      var f' := if MarksPassword(e) then f.(password := true) else f;
      Move(Read(e), p + 1, f', depth + Delta(e), e.End? && depth - 1 == 0)
  }

  /** The decode loop as a function of the stream: from position `p` with
      field `f` and counter `depth`, take turns until the close tag that
      brings the depth to zero, or until the end of input. */
  function Run(es: seq<Event>, p: nat, f: DialogField, depth: int, target: Decoder, calculation: Decoder): (r: Decoded)
    requires p <= |es|
    ensures p <= r.pos <= |es|
    decreases |es| - p
  {
    if AtEof(es, p) then Decoded(f, p, [])
    else
      var t := Advance(es, p, f, depth, target, calculation);
      if t.stop then Decoded(t.field, t.next, [t.visit])
      else
        var rest := Run(es, t.next, t.field, t.depth, target, calculation);
        Decoded(rest.field, rest.pos, [t.visit] + rest.log)
  }

  /** The depth the loop's own reads add up to; a hand-off adds nothing,
      its opening tag being cancelled by the correction. */
  function OwnDepth(log: seq<Visit>): int
    decreases |log|
  {
    if log == [] then 0
    else
      var v := log[|log| - 1];
      OwnDepth(log[..|log| - 1]) + (if v.Read? then Delta(v.e) else 0)
  }

  /** Walking over an opening tag and then over the element it opens, as
      a collaborator does, brings a walk back to its own depth. */
  lemma WalkPastElement(es: seq<Event>, p: nat, depth: int)
    requires p < |es| && es[p].Start?
    requires depth >= 1
    ensures Walk(es, p, depth).pos == Walk(es, Walk(es, p + 1, 1).pos, depth).pos
  {
    var w := Walk(es, p + 1, 1);
    WalkNested(es, p + 1, 1, depth);
    assert Walk(es, p, depth) == Walk(es, p + 1, 1 + depth);
    if !w.closed {
      assert Walk(es, w.pos, depth) == w;
    }
  }

  /** The decode stops exactly where the plain depth walk stops: the
      correction after each hand-off makes up for the opening tag, and the
      collaborator consumed the matching close tag. */
  lemma {:induction false} RunStopsWithWalk(es: seq<Event>, p: nat, f: DialogField, depth: int, target: Decoder, calculation: Decoder)
    requires p <= |es|
    requires depth >= 1
    ensures Run(es, p, f, depth, target, calculation).pos == Walk(es, p, depth).pos
    decreases |es| - p
  {
    if !AtEof(es, p) {
      var t := Advance(es, p, f, depth, target, calculation);
      var r := Run(es, p, f, depth, target, calculation);
      if t.visit.Handoff? {
        RunStopsWithWalk(es, t.next, t.field, t.depth, target, calculation);
        WalkPastElement(es, p, depth);
      } else if !t.stop {
        assert t.next == p + 1 && t.depth == depth + Delta(es[p]);
        RunStopsWithWalk(es, t.next, t.field, t.depth, target, calculation);
      }
    }
  }

  /** On well-formed input the decode ends just past the field's own
      matching close tag. */
  lemma StopsAtMatchingClose(es: seq<Event>, p: nat, q: nat, target: Decoder, calculation: Decoder)
    requires p <= |es|
    requires MatchingClose(es, p, q)
    ensures Run(es, p, DialogField(None, None, false), 1, target, calculation).pos == q
  {
    RunStopsWithWalk(es, p, DialogField(None, None, false), 1, target, calculation);
    WalkFindsMatchingClose(es, p, q);
  }

  /** One turn's visit accounts for exactly the events the turn consumed. */
  lemma TurnCovers(es: seq<Event>, p: nat, f: DialogField, depth: int, target: Decoder, calculation: Decoder)
    requires p < |es|
    ensures var t := Advance(es, p, f, depth, target, calculation);
      Covered([t.visit]) == es[p..t.next]
  {
    var t := Advance(es, p, f, depth, target, calculation);
    assert [t.visit][1..] == [];
  }

  lemma SliceSplit<T>(s: seq<T>, i: nat, j: nat, k: nat)
    requires i <= j <= k <= |s|
    ensures s[i..k] == s[i..j] + s[j..k]
  {
  }

  lemma CoveredCons(v: Visit, log: seq<Visit>)
    ensures Covered([v] + log) == Covered([v]) + Covered(log)
  {
    assert ([v] + log)[1..] == log;
    assert [v][1..] == [];
  }

  /** The visits account for every consumed event exactly once, in order. */
  lemma {:induction false} LogCoversConsumed(es: seq<Event>, p: nat, f: DialogField, depth: int, target: Decoder, calculation: Decoder)
    requires p <= |es|
    ensures var r := Run(es, p, f, depth, target, calculation); Covered(r.log) == es[p..r.pos]
    decreases |es| - p
  {
    var r := Run(es, p, f, depth, target, calculation);
    if !AtEof(es, p) {
      var t := Advance(es, p, f, depth, target, calculation);
      TurnCovers(es, p, f, depth, target, calculation);
      if !t.stop {
        var rest := Run(es, t.next, t.field, t.depth, target, calculation);
        LogCoversConsumed(es, t.next, t.field, t.depth, target, calculation);
        CoveredCons(t.visit, rest.log);
        SliceSplit(es, p, t.next, r.pos);
      }
    }
  }

  /** A visit the loop made as the source makes it: only the opening tag of
      a `Parameter` typed "Target" or "Label" is handed off, to its own
      collaborator together with the sub-tree that collaborator consumed;
      every other event is read by the loop itself. */
  predicate WellFormedVisit(v: Visit, target: Decoder, calculation: Decoder)
  {
    match v
    case Read(e) => HandoffOf(e).None?
    case Handoff(kind, start, sub, result) =>
      && HandoffOf(start) == Some(kind)
      && result == Chosen(kind, target, calculation)(start.attrs, sub)
  }

  lemma {:induction false} HandoffsAreExact(es: seq<Event>, p: nat, f: DialogField, depth: int, target: Decoder, calculation: Decoder)
    requires p <= |es|
    ensures var r := Run(es, p, f, depth, target, calculation);
      forall v :: v in r.log ==> WellFormedVisit(v, target, calculation)
    decreases |es| - p
  {
    if !AtEof(es, p) {
      var t := Advance(es, p, f, depth, target, calculation);
      if !t.stop {
        HandoffsAreExact(es, t.next, t.field, t.depth, target, calculation);
      }
    }
  }

  /** The password flag ends true exactly when it started true or the loop
      itself read a `Boolean` with type "Password" and value "True"; it is
      never reset. */
  lemma {:induction false} PasswordIsSticky(es: seq<Event>, p: nat, f: DialogField, depth: int, target: Decoder, calculation: Decoder)
    requires p <= |es|
    ensures var r := Run(es, p, f, depth, target, calculation);
      r.field.password <==> f.password || exists k :: 0 <= k < |r.log| && r.log[k].Read? && MarksPassword(r.log[k].e)
    decreases |es| - p
  {
    var r := Run(es, p, f, depth, target, calculation);
    if !AtEof(es, p) {
      var t := Advance(es, p, f, depth, target, calculation);
      assert t.field.password <==> f.password || (t.visit.Read? && MarksPassword(t.visit.e));
      assert r.log[0] == t.visit;
      if !t.stop {
        var rest := Run(es, t.next, t.field, t.depth, target, calculation);
        PasswordIsSticky(es, t.next, t.field, t.depth, target, calculation);
        assert r.log == [t.visit] + rest.log;
        if exists k :: 0 <= k < |rest.log| && rest.log[k].Read? && MarksPassword(rest.log[k].e) {
          var k :| 0 <= k < |rest.log| && rest.log[k].Read? && MarksPassword(rest.log[k].e);
          assert r.log[k + 1] == rest.log[k];
        }
        if exists k :: 0 <= k < |r.log| && r.log[k].Read? && MarksPassword(r.log[k].e) {
          var k :| 0 <= k < |r.log| && r.log[k].Read? && MarksPassword(r.log[k].e);
          if k > 0 {
            assert rest.log[k - 1] == r.log[k];
          }
        }
      }
    }
  }

  lemma {:induction false} LastResultCons(v: Visit, log: seq<Visit>, kind: Delegate, init: Option<string>)
    ensures LastResult([v] + log, kind, init)
         == LastResult(log, kind, if v.Handoff? && v.kind == kind && v.result.Ok? then v.result.value else init)
    decreases |log|
  {
    if log != [] {
      assert ([v] + log)[..|log|] == [v] + log[..|log| - 1];
      LastResultCons(v, log[..|log| - 1], kind, init);
    }
  }

  /** The target (and the label) is what the last successful hand-off of
      its kind displayed, absent display included; failed hand-offs and
      everything else leave it as it was. */
  lemma {:induction false} LastHandoffWins(es: seq<Event>, p: nat, f: DialogField, depth: int, target: Decoder, calculation: Decoder)
    requires p <= |es|
    ensures var r := Run(es, p, f, depth, target, calculation);
      && r.field.target == LastResult(r.log, ToTarget, f.target)
      && r.field.labelText == LastResult(r.log, ToCalculation, f.labelText)
    decreases |es| - p
  {
    var r := Run(es, p, f, depth, target, calculation);
    if !AtEof(es, p) {
      var t := Advance(es, p, f, depth, target, calculation);
      var rest := if t.stop then [] else Run(es, t.next, t.field, t.depth, target, calculation).log;
      if !t.stop {
        LastHandoffWins(es, t.next, t.field, t.depth, target, calculation);
      }
      assert r.log == [t.visit] + rest;
      LastResultCons(t.visit, rest, ToTarget, f.target);
      LastResultCons(t.visit, rest, ToCalculation, f.labelText);
    }
  }

  /** One turn of the loop keeps the decode of the whole stream equal to
      the visits so far followed by the decode of the rest. */
  lemma TurnKeepsRun(es: seq<Event>, p0: nat, p: nat, f: DialogField, depth: int, log: seq<Visit>, target: Decoder, calculation: Decoder)
    requires p0 <= p < |es| && !AtEof(es, p)
    requires var rest := Run(es, p, f, depth, target, calculation);
      Run(es, p0, DialogField(None, None, false), 1, target, calculation) == Decoded(rest.field, rest.pos, log + rest.log)
    ensures var t := Advance(es, p, f, depth, target, calculation);
      if t.stop then Run(es, p0, DialogField(None, None, false), 1, target, calculation) == Decoded(t.field, t.next, log + [t.visit])
      else
        var rest := Run(es, t.next, t.field, t.depth, target, calculation);
        Run(es, p0, DialogField(None, None, false), 1, target, calculation) == Decoded(rest.field, rest.pos, log + [t.visit] + rest.log)
  {
    var t := Advance(es, p, f, depth, target, calculation);
    if !t.stop {
      var rest := Run(es, t.next, t.field, t.depth, target, calculation);
      assert log + ([t.visit] + rest.log) == log + [t.visit] + rest.log;
    }
  }

  /** One pass of the decode loop's body: pull an event and act on it. A
      `Parameter` typed "Target" or "Label" is handed to its collaborator,
      which consumes the rest of that element; the depth raised by its
      opening tag is then lowered again, whatever the collaborator
      returned. `done` says the loop ends: end of input, or the close tag
      that brings the depth to zero. */
  method Turn(r: Reader, item: DialogField, depth: int, target: Decoder, calculation: Decoder)
    returns (item': DialogField, depth': int, done: bool)
    requires r.Valid()
    modifies r
    ensures r.Valid()
    ensures AtEof(r.events, old(r.pos)) ==> done && r.pos == old(r.pos) && item' == item && depth' == depth
    ensures !AtEof(r.events, old(r.pos)) ==>
      var t := Advance(r.events, old(r.pos), item, depth, target, calculation);
      r.pos == t.next && item' == t.field && depth' == t.depth && done == t.stop
  {
    item', depth', done := item, depth, false;
    var e := r.Next();
    match e
    case Eof => done := true;
    case Start(name, attrs) =>
      depth' := depth' + 1;
      if name == "Parameter" {
        var paramType := GetAttribute(attrs, "type");
        if paramType == Some("Target") {
          var res := Decode(r, attrs, target);
          if res.Ok? {
            item' := item'.(target := res.value);
          }
          depth' := depth' - 1;
        } else if paramType == Some("Label") {
          var res := Decode(r, attrs, calculation);
          if res.Ok? {
            item' := item'.(labelText := res.value);
          }
          depth' := depth' - 1;
        }
      } else if name == "Boolean" {
        var isPassword := GetAttribute(attrs, "type") == Some("Password");
        var isTrue := GetAttribute(attrs, "value") == Some("True");
        if isPassword && isTrue {
          item' := item'.(password := true);
        }
      }
    case End(_) =>
      depth' := depth' - 1;
      if depth' == 0 {
        done := true;
      }
    case _ =>
  }

  /** Decodes a dialog field whose opening tag the reader has just
      consumed, handing nested Target and Label parameters to the given
      collaborators, and leaves the reader past the field's close tag. */
  method FromXml(r: Reader, target: Decoder, calculation: Decoder) returns (item: DialogField)
    requires r.Valid()
    modifies r
    ensures r.Valid()
    ensures var d := Run(r.events, old(r.pos), DialogField(None, None, false), 1, target, calculation);
      item == d.field && r.pos == d.pos
    ensures r.pos == Walk(r.events, old(r.pos), 1).pos
  {
    item := DialogField(None, None, false);
    var depth := 1;
    ghost var p0 := r.pos;
    ghost var log: seq<Visit> := [];
    while true
      invariant r.Valid() && p0 <= r.pos
      invariant depth >= 1
      invariant depth == 1 + OwnDepth(log)
      invariant var rest := Run(r.events, r.pos, item, depth, target, calculation);
        Run(r.events, p0, DialogField(None, None, false), 1, target, calculation)
          == Decoded(rest.field, rest.pos, log + rest.log)
      decreases |r.events| - r.pos
    {
      ghost var p := r.pos;
      ghost var before := log;
      ghost var atEof := AtEof(r.events, p);
      ghost var t := if atEof then Move(Read(Eof), p, item, depth, true)
                     else Advance(r.events, p, item, depth, target, calculation);
      if !atEof {
        TurnKeepsRun(r.events, p0, p, item, depth, log, target, calculation);
      }
      var done;
      item, depth, done := Turn(r, item, depth, target, calculation);
      log := log + [t.visit];
      assert log[..|log| - 1] == before;
      if done {
        break;
      }
    }
    RunStopsWithWalk(r.events, p0, DialogField(None, None, false), 1, target, calculation);
  }
}
