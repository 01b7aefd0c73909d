/** The example documents the decoders are written against, restated as
    event streams that start just after the parameter's opening tag (the
    whitespace between tags, which both decoders ignore, is left out), run
    through the decode methods and rendered. */
module ButtonScenarios {
  import opened Xml
  import opened ButtonParameter

  /** A button whose label comes from a nested calculation. */
  function CalculationButton(): seq<Event>
  {
    [ Start("Calculation", map["datatype" := "1", "position" := "5"]),
      Start("Calculation", map[]),
      Start("Text", map[]),
      CData("\"OK\""),
      End("Text"),
      End("Calculation"),
      End("Calculation"),
      Start("Boolean", map["type" := "Commit", "value" := "False"]),
      End("Boolean"),
      End("Parameter"),
      Eof ]
  }

  /** A button holding only its commit flag. */
  function CommitOnly(value: string): seq<Event>
  {
    [ Start("Boolean", map["type" := "Commit", "value" := value]),
      End("Boolean"),
      End("Parameter"),
      Eof ]
  }

  lemma CalculationButtonTail()
    ensures Run(CalculationButton(), 4, Walker(Some("\"OK\""), false, true, 4))
         == Decoded(Button(Some("\"OK\""), false), 10)
  {
    var es := CalculationButton();
    var ok := Some("\"OK\"");
    var d := Decoded(Button(ok, false), 10);
    assert Run(es, 9, Walker(ok, false, false, 1)) == d;
    assert Run(es, 8, Walker(ok, false, false, 2)) == d;
    assert Run(es, 7, Walker(ok, false, false, 1)) == d;
    assert Run(es, 6, Walker(ok, false, false, 2)) == d;
    assert Run(es, 5, Walker(ok, false, false, 3)) == d;
  }

  lemma CalculationButtonRuns()
    ensures Run(CalculationButton(), 0, Initial(map["type" := "Button1"]))
         == Decoded(Button(Some("\"OK\""), false), 10)
  {
    var es := CalculationButton();
    var d := Decoded(Button(Some("\"OK\""), false), 10);
    CalculationButtonTail();
    assert Run(es, 3, Walker(None, false, true, 4)) == d;
    assert Run(es, 2, Walker(None, false, false, 3)) == d;
    assert Run(es, 1, Walker(None, false, false, 2)) == d;
    assert Run(es, 0, Walker(None, false, false, 1)) == d;
    assert Initial(map["type" := "Button1"]) == Walker(None, false, false, 1) by {
      assert "value" !in map["type" := "Button1"];
    }
  }

  lemma CommitOnlyRuns(labelText: Option<string>, value: string)
    ensures Run(CommitOnly(value), 0, Walker(labelText, false, false, 1))
         == Decoded(Button(labelText, value == "True"), 3)
  {
    var es := CommitOnly(value);
    var d := Decoded(Button(labelText, value == "True"), 3);
    assert Run(es, 2, Walker(labelText, value == "True", false, 1)) == d;
    assert Run(es, 1, Walker(labelText, value == "True", false, 2)) == d;
  }

  lemma ButtonDisplays()
    ensures Button(Some("\"OK\""), false).Display("Button1") == Some("Default Button: \"OK\"")
    ensures Button(Some("Save"), true).Display("Button2") == Some("Button 2: Save")
    ensures Button(None, false).Display("Button2") == None
    ensures Button(Some("Maybe"), false).Display("Button3") == Some("Button 3: Maybe")
  {
    assert RoleName("Button1") == "Default Button";
    assert "Default Button" + ": " + "\"OK\"" == "Default Button: \"OK\"";
    assert RoleName("Button2") == "Button 2";
    assert "Button 2" + ": " + "Save" == "Button 2: Save";
    assert RoleName("Button3") == "Button 3";
    assert "Button 3" + ": " + "Maybe" == "Button 3: Maybe";
  }

  /** A button labelled by a nested calculation's text, not committing. */
  method ButtonWithCalculation() returns (b: Button, shown: Option<string>)
    ensures b == Button(Some("\"OK\""), false)
    ensures shown == Some("Default Button: \"OK\"")
  {
    var r := new Reader(CalculationButton());
    b := ButtonParameter.FromXml(r, map["type" := "Button1"]);
    CalculationButtonRuns();
    shown := b.Display("Button1");
    ButtonDisplays();
  }

  /** The `value` attribute labels the button; a "True" Boolean commits. */
  method ButtonWithValueAttribute() returns (b: Button, shown: Option<string>)
    ensures b == Button(Some("Save"), true)
    ensures shown == Some("Button 2: Save")
  {
    var r := new Reader(CommitOnly("True"));
    var start := map["type" := "Button1", "value" := "Save"];
    b := ButtonParameter.FromXml(r, start);
    CommitOnlyRuns(Some("Save"), "True");
    shown := b.Display("Button2");
    ButtonDisplays();
  }

  /** Neither a `value` attribute nor any text: no label, nothing shown. */
  method EmptyButton() returns (b: Button, shown: Option<string>)
    ensures b == Button(None, false)
    ensures shown == None
  {
    var r := new Reader(CommitOnly("False"));
    b := ButtonParameter.FromXml(r, map["type" := "Button2"]);
    CommitOnlyRuns(None, "False");
    shown := b.Display("Button2");
  }

  /** The third role's name. */
  method Button3Display() returns (b: Button, shown: Option<string>)
    ensures b == Button(Some("Maybe"), false)
    ensures shown == Some("Button 3: Maybe")
  {
    var r := new Reader(CommitOnly("False"));
    b := ButtonParameter.FromXml(r, map["type" := "Button3", "value" := "Maybe"]);
    CommitOnlyRuns(Some("Maybe"), "False");
    shown := b.Display("Button3");
    ButtonDisplays();
  }
}
