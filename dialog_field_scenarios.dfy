/** The example dialog fields the decoder is written against, restated as
    event streams that start just after the field's opening tag (the
    whitespace between tags is left out). The Target and Calculation
    decoders are not part of this model; each scenario stands in for them
    with a decoder that yields what the real one displays for that
    document. */
module DialogFieldScenarios {
  import opened Xml
  import opened Collaborators
  import opened DialogFieldParameter

  /** A field with a Target variable, a password Boolean and a Label
      calculation, each variable part given as an argument. */
  function FieldEvents(variable: string, targetPos: string, password: string, labelPos: string, labelText: string): seq<Event>
  {
    [ Start("Parameter", map["type" := "Target"]),
      Start("Variable", map["value" := variable]),
      Start("repetition", map[]),
      Start("Calculation", map["datatype" := "1", "position" := targetPos]),
      Start("Calculation", map[]),
      Start("Text", map[]),
      CData("1"),
      End("Text"),
      End("Calculation"),
      End("Calculation"),
      End("repetition"),
      End("Variable"),
      End("Parameter"),
      Start("Boolean", map["type" := "Password", "value" := password]),
      End("Boolean"),
      Start("Parameter", map["type" := "Label"]),
      Start("Calculation", map["datatype" := "1", "position" := labelPos]),
      Start("Calculation", map[]),
      Start("Text", map[]),
      CData(labelText),
      End("Text"),
      End("Calculation"),
      End("Calculation"),
      End("Parameter"),
      End("Parameter"),
      Eof ]
  }

  /** A collaborator that always displays `shown`. */
  function Yields(shown: string): Decoder
  {
    (attrs: Attributes, sub: seq<Event>) => Ok(Some(shown))
  }

  /** The Target collaborator takes events 1 to 12. */
  lemma TargetSubtree(es: seq<Event>, variable: string, targetPos: string, password: string, labelPos: string, labelText: string)
    requires es == FieldEvents(variable, targetPos, password, labelPos, labelText)
    ensures Walk(es, 1, 1) == Stop(13, true)
  {
    var s := Stop(13, true);
    assert Walk(es, 12, 1) == s;
    assert Walk(es, 11, 2) == s;
    assert Walk(es, 10, 3) == s;
    assert Walk(es, 9, 4) == s;
    assert Walk(es, 8, 5) == s;
    assert Walk(es, 7, 6) == s;
    assert Walk(es, 6, 6) == s;
    assert Walk(es, 5, 5) == s;
    assert Walk(es, 4, 4) == s;
    assert Walk(es, 3, 3) == s;
    assert Walk(es, 2, 2) == s;
  }

  /** The Calculation collaborator takes events 16 to 23. */
  lemma LabelSubtree(es: seq<Event>, variable: string, targetPos: string, password: string, labelPos: string, labelText: string)
    requires es == FieldEvents(variable, targetPos, password, labelPos, labelText)
    ensures Walk(es, 16, 1) == Stop(24, true)
  {
    var s := Stop(24, true);
    assert Walk(es, 23, 1) == s;
    assert Walk(es, 22, 2) == s;
    assert Walk(es, 21, 3) == s;
    assert Walk(es, 20, 4) == s;
    assert Walk(es, 19, 4) == s;
    assert Walk(es, 18, 3) == s;
    assert Walk(es, 17, 2) == s;
  }

  /** From the label hand-off on: the label is taken and the field's
      close tag ends the decode. */
  lemma FieldRunsFromLabel(es: seq<Event>, f: DialogField, variable: string, targetPos: string, password: string, labelPos: string, labelText: string, input: string, shownLabel: string)
    requires es == FieldEvents(variable, targetPos, password, labelPos, labelText)
    ensures var d := Run(es, 15, f, 1, Yields(input), Yields(shownLabel));
      d.field == f.(labelText := Some(shownLabel)) && d.pos == 25
  {
    LabelSubtree(es, variable, targetPos, password, labelPos, labelText);
    var t := Advance(es, 15, f, 1, Yields(input), Yields(shownLabel));
    assert HandoffOf(es[15]) == Some(ToCalculation);
    assert t.next == 24 && t.field == f.(labelText := Some(shownLabel)) && t.depth == 1 && !t.stop;
    var u := Advance(es, 24, t.field, 1, Yields(input), Yields(shownLabel));
    assert HandoffOf(es[24]).None?;
    assert u.stop && u.next == 25 && u.field == t.field;
  }

  /** The password Boolean: set by "True" only. */
  lemma FieldRunsFromBoolean(es: seq<Event>, f: DialogField, variable: string, targetPos: string, password: string, labelPos: string, labelText: string, input: string, shownLabel: string)
    requires es == FieldEvents(variable, targetPos, password, labelPos, labelText)
    requires !f.password
    ensures var d := Run(es, 13, f, 1, Yields(input), Yields(shownLabel));
      d.field == f.(labelText := Some(shownLabel), password := password == "True") && d.pos == 25
  {
    var target, calculation := Yields(input), Yields(shownLabel);
    assert HandoffOf(es[13]).None? && (MarksPassword(es[13]) <==> password == "True");
    var t := Advance(es, 13, f, 1, target, calculation);
    assert t.next == 14 && t.field == f.(password := password == "True") && t.depth == 2 && !t.stop;
    var u := Advance(es, 14, t.field, 2, target, calculation);
    assert HandoffOf(es[14]).None?;
    assert u.next == 15 && u.field == t.field && u.depth == 1 && !u.stop;
    FieldRunsFromLabel(es, u.field, variable, targetPos, password, labelPos, labelText, input, shownLabel);
  }

  /** Decoding such a field: the target and the label are what the
      collaborators display, the password flag is set by "True" only, and
      the decode ends just past the field's own close tag. */
  lemma FieldRuns(variable: string, targetPos: string, password: string, labelPos: string, labelText: string, input: string, shownLabel: string)
    ensures var d := Run(FieldEvents(variable, targetPos, password, labelPos, labelText), 0,
                         DialogField(None, None, false), 1, Yields(input), Yields(shownLabel));
      d.field == DialogField(Some(input), Some(shownLabel), password == "True") && d.pos == 25
  {
    var es := FieldEvents(variable, targetPos, password, labelPos, labelText);
    var target, calculation := Yields(input), Yields(shownLabel);
    TargetSubtree(es, variable, targetPos, password, labelPos, labelText);
    assert HandoffOf(es[0]) == Some(ToTarget);
    var t := Advance(es, 0, DialogField(None, None, false), 1, target, calculation);
    assert t.next == 13 && t.field == DialogField(Some(input), None, false) && t.depth == 1 && !t.stop;
    FieldRunsFromBoolean(es, t.field, variable, targetPos, password, labelPos, labelText, input, shownLabel);
  }

  // The expected renderings below are written clause by clause, joined
  // by " ; ".

  lemma Field1Displays()
    ensures DialogField(Some("$input1"), Some("\"label1\""), false).Display("Field1")
         == Some("Input 1: $input1" + " ; " + "Label 1: \"label1\"")
  {
    assert FieldNumber("Field1") == "1";
    DisplayFormat(DialogField(Some("$input1"), Some("\"label1\""), false), "Field1");
    assert "Input " + "1" + ": " + "$input1" == "Input 1: $input1";
    assert "Label " + "1" + ": " + "\"label1\"" == "Label 1: \"label1\"";
  }

  lemma PasswordFieldDisplays()
    ensures DialogField(Some("$input1"), Some("\"label1\""), true).Display("Field1")
         == Some("Input 1: $input1" + " ; " + "Label 1: \"label1\"" + " ; " + "Password")
  {
    assert FieldNumber("Field1") == "1";
    DisplayFormat(DialogField(Some("$input1"), Some("\"label1\""), true), "Field1");
    assert "Input " + "1" + ": " + "$input1" == "Input 1: $input1";
    assert "Label " + "1" + ": " + "\"label1\"" == "Label 1: \"label1\"";
  }

  lemma Field2Displays()
    ensures DialogField(Some("$input2"), Some("\"second\""), false).Display("Field2")
         == Some("Input 2: $input2" + " ; " + "Label 2: \"second\"")
  {
    assert FieldNumber("Field2") == "2";
    DisplayFormat(DialogField(Some("$input2"), Some("\"second\""), false), "Field2");
    assert "Input " + "2" + ": " + "$input2" == "Input 2: $input2";
    assert "Label " + "2" + ": " + "\"second\"" == "Label 2: \"second\"";
  }

  /** Target and label from the collaborators, password "False". */
  method FieldWithVariableAndLabel() returns (field: DialogField, shown: Option<string>)
    ensures field == DialogField(Some("$input1"), Some("\"label1\""), false)
    ensures shown == Some("Input 1: $input1" + " ; " + "Label 1: \"label1\"")
  {
    var r := new Reader(FieldEvents("$input1", "32", "False", "2", "\"label1\""));
    field := DialogFieldParameter.FromXml(r, Yields("$input1"), Yields("\"label1\""));
    FieldRuns("$input1", "32", "False", "2", "\"label1\"", "$input1", "\"label1\"");
    shown := field.Display("Field1");
    Field1Displays();
  }

  /** The same field with password "True" gains the Password clause. */
  method FieldWithPassword() returns (field: DialogField, shown: Option<string>)
    ensures field.password
    ensures shown == Some("Input 1: $input1" + " ; " + "Label 1: \"label1\"" + " ; " + "Password")
  {
    var r := new Reader(FieldEvents("$input1", "32", "True", "2", "\"label1\""));
    field := DialogFieldParameter.FromXml(r, Yields("$input1"), Yields("\"label1\""));
    FieldRuns("$input1", "32", "True", "2", "\"label1\"", "$input1", "\"label1\"");
    shown := field.Display("Field1");
    PasswordFieldDisplays();
  }

  /** The second field role shows the number 2. */
  method Field2Display() returns (field: DialogField, shown: Option<string>)
    ensures shown == Some("Input 2: $input2" + " ; " + "Label 2: \"second\"")
  {
    var r := new Reader(FieldEvents("$input2", "33", "False", "3", "\"second\""));
    field := DialogFieldParameter.FromXml(r, Yields("$input2"), Yields("\"second\""));
    FieldRuns("$input2", "33", "False", "3", "\"second\"", "$input2", "\"second\"");
    shown := field.Display("Field2");
    Field2Displays();
  }
}
