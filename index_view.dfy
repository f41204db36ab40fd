/** The batch-creation page: whenever the pasted text or the chosen file
    changes, both are run through the IMB pipeline, and the page shows how
    many unique IMBs are ready, a sample of the warnings, and enables the
    create button only when there is something to submit. */
module IndexView {
  import opened Text
  import opened Validate

  /** `[textarea, fileText].filter(Boolean).join("\n")`: the non-empty ones
      of the two, with a line feed between them when both are non-empty. */
  function Combine(textareaValue: string, fileText: string): string {
    if textareaValue == [] then fileText
    else if fileText == [] then textareaValue
    else textareaValue + "\n" + fileText
  }

  /** Parsing the combined text gives the tokens of the text box followed by
      those of the file: joining the two with a line feed never fuses a
      token of one with a token of the other. */
  lemma {:induction false} CombineParse(textareaValue: string, fileText: string)
    ensures ParseImbs(Combine(textareaValue, fileText)) == ParseImbs(textareaValue) + ParseImbs(fileText)
  {
    var a, b := textareaValue, fileText;
    assert ParseImbs([]) == [];
    if a != [] && b != [] {
      ParseJoinedLines(a, b);
    }
  }

  /** Every token of either input is among the IMBs the page will submit,
      and nothing else is: each submitted IMB is a token of one of them. */
  lemma {:induction false} CombinedKeepsBoth(textareaValue: string, fileText: string)
    ensures var imbs := Normalize(ParseImbs(Combine(textareaValue, fileText)));
      forall t :: t in ParseImbs(textareaValue) + ParseImbs(fileText) <==> t in imbs
  {
    var tokens := ParseImbs(textareaValue) + ParseImbs(fileText);
    CombineParse(textareaValue, fileText);
    var imbs := Normalize(tokens);
    NormalizeContents(tokens);
    assert TrimAll(tokens) == tokens by {
      forall i | 0 <= i < |tokens| ensures Trim(tokens[i]) == tokens[i] {
        assert IsTrimmed(tokens[i]);
      }
    }
  }

  /** At most this many warnings are listed. */
  const SampleSize: nat := 5

  /** The warnings line: a fixed message when there are none, otherwise the
      first few messages and whether an ellipsis follows them. */
  datatype WarningsPanel = NoWarnings | Shown(sample: seq<string>, ellipsis: bool)

  /** What the warnings line shows for `warnings`. */
  function Panel(warnings: seq<string>): (p: WarningsPanel)
    ensures p.NoWarnings? <==> warnings == []
    ensures p.Shown? ==> |p.sample| <= SampleSize && p.sample <= warnings
    ensures p.Shown? ==> |p.sample| == if |warnings| < SampleSize then |warnings| else SampleSize
    ensures p.Shown? ==> (p.ellipsis <==> |warnings| > SampleSize)
  {
    if warnings == [] then NoWarnings
    else
      var n := if |warnings| < SampleSize then |warnings| else SampleSize;
      Shown(warnings[..n], |warnings| > SampleSize)
  }

  const NoWarningsMessage := "No format warnings detected."

  /** The text of the warnings line, HTML markup aside. */
  function PanelText(p: WarningsPanel): string {
    match p
    case NoWarnings => NoWarningsMessage
    case Shown(sample, ellipsis) => "Warnings: " + Join(sample, " · ") + (if ellipsis then "..." else "")
  }

  /** The line reads "No format warnings detected." exactly when there are
      no warnings; otherwise it starts with the "Warnings:" label. */
  lemma {:induction false} PanelTextNoWarnings(warnings: seq<string>)
    ensures PanelText(Panel(warnings)) == NoWarningsMessage <==> warnings == []
    ensures warnings != [] ==> PanelText(Panel(warnings))[..9] == "Warnings:"
  {
    if warnings != [] {
      var p := Panel(warnings);
      var rest := Join(p.sample, " · ") + (if p.ellipsis then "..." else "");
      assert PanelText(p) == "Warnings: " + rest;
      assert PanelText(p)[0] == 'W' != NoWarningsMessage[0];
    }
  }

  /** `${n} unique IMB${n === 1 ? "" : "s"} ready`. */
  function SummaryText(n: nat): string {
    Decimal(n) + " unique IMB" + (if n == 1 then "" else "s") + " ready"
  }

  /** What the file input delivered: no file, the file's text, or a read error. */
  datatype FileEvent = NoFile | FileRead(text: string) | FileReadFailed

  const ReadFailedMessage := "Failed to read file."

  /** The first four lines of `updateSummary`: combine the two inputs,
      parse, normalize, and collect the warnings. The IMBs are those of the
      text box and the file taken together, in that order. */
  method Prepare(textareaValue: string, fileText: string) returns (imbs: seq<string>, warnings: seq<string>)
    ensures imbs == Normalize(ParseImbs(textareaValue) + ParseImbs(fileText))
    ensures warnings == Warnings(imbs)
  {
    var combined := Combine(textareaValue, fileText);
    var parsed := ParseImbs(combined);
    CombineParse(textareaValue, fileText);
    imbs := NormalizeImbs(parsed);
    warnings := SummarizeWarnings(imbs);
  }

  /** The state the creation page keeps between events. */
  class IndexPage {
    var fileText: string
    var currentImbs: seq<string>
    var summary: string
    var panel: WarningsPanel
    var createDisabled: bool
    var statusMessage: string

    /** The page as first shown, before any input (the initial summary run
        is `UpdateSummary` on an empty text box). */
    constructor ()
      ensures fileText == [] && currentImbs == [] && statusMessage == []
      ensures summary == SummaryText(0) && panel == NoWarnings && createDisabled
    {
      fileText := [];
      currentImbs := [];
      summary := SummaryText(0);
      panel := NoWarnings;
      createDisabled := true;
      statusMessage := [];
    }

    /** `updateSummary`: recompute the IMB list from the text box and the
        file, and everything shown about it. */
    method UpdateSummary(textareaValue: string)
      modifies this
      ensures fileText == old(fileText) && statusMessage == old(statusMessage)
      ensures currentImbs == Normalize(ParseImbs(textareaValue) + ParseImbs(fileText))
      ensures summary == SummaryText(|currentImbs|)
      ensures panel == Panel(Warnings(currentImbs))
      ensures createDisabled <==> |currentImbs| == 0
    {
      var imbs, warnings := Prepare(textareaValue, fileText);
      Show(imbs, warnings);
    }

    /** The last lines of `updateSummary`: store the list and show its size,
        the warnings and whether it can be submitted. */
    method Show(imbs: seq<string>, warnings: seq<string>)
      modifies this
      ensures fileText == old(fileText) && statusMessage == old(statusMessage)
      ensures currentImbs == imbs
      ensures summary == SummaryText(|imbs|)
      ensures panel == Panel(warnings)
      ensures createDisabled <==> |imbs| == 0
    {
      currentImbs := imbs;
      summary := SummaryText(|imbs|);
      panel := Panel(warnings);
      createDisabled := |imbs| == 0;
    }

    /** The file input changed: remember the file's text (empty when there is
        no file or it could not be read) and recompute the summary. */
    method FileChanged(event: FileEvent, textareaValue: string)
      modifies this
      ensures fileText == if event.FileRead? then event.text else []
      ensures statusMessage == if event.FileReadFailed? then ReadFailedMessage else old(statusMessage)
      ensures currentImbs == Normalize(ParseImbs(textareaValue) + ParseImbs(fileText))
      ensures summary == SummaryText(|currentImbs|)
      ensures panel == Panel(Warnings(currentImbs))
      ensures createDisabled == (currentImbs == [])
    {
      match event {
        case NoFile =>
          fileText := [];
        case FileRead(text) =>
          fileText := text;
        case FileReadFailed =>
          fileText := [];
          statusMessage := ReadFailedMessage;
      }
      UpdateSummary(textareaValue);
    }
  }
}
