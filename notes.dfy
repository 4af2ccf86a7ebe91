/** Note generation: the instruction prompt sent to the hosted language model, the
    deterministic fallback summary, and the three-way choice between a missing client, a
    failing call and a successful call. */
module Notes {
  import opened Text
  import opened Wrappers

  /** The instruction used when the transcript may mix English and Hindi: translate first,
      then summarise (the dedented, stripped text of the source's template). The opening words
      of both instructions are literals of their own so that the verifier sees where the two
      texts part. */
  const TranslateInstruction: string :=
    "You are a bilingual " +
    "assistant skilled at summarizing meeting or lecture transcripts. The transcript below may contain English and Hindi (Hinglish).\n\nYour task is to:\n1.  **Translate:** First, identify and translate any Hindi or Hinglish segments into clear, natural English. Keep the timestamps associated with the original segments.\n2.  **Summarize:** Based *only* on the fully English version (original English + translated Hindi), produce structured notes using Markdown formatting. The notes should include the following sections:\n\n    * **## Title**\n        * Create a concise, descriptive title for the transcript content (one line).\n\n    * **## Key Takeaways**\n        * Provide 2-3 main conclusions or most important points from the discussion.\n\n    * **## Summary Points**\n        * List 6-12 bullet points covering the core arguments, key information presented, decisions made, and significant questions raised.\n        * Each point should be 1-2 sentences.\n        * Include relevant timestamps `[start-end]` where appropriate to reference specific moments in the transcript.\n\n    * **## Key Definitions** (Omit this section if none are found)\n        * List any important terms or concepts defined in the transcript, along with their definitions.\n        * Include timestamps `[start-end]` for context.\n\n    * **## Action Items / Next Steps** (Omit this section if none are found)\n        * List specific tasks, follow-ups, or next steps mentioned.\n        * For each item, clearly state the task, who is responsible (if mentioned), and any deadlines mentioned.\n        * Include timestamps `[start-end]`.\n\nMaintain a concise, objective, and professional tone throughout the notes. Ensure all information accurately reflects the content of the transcript."

  /** The instruction used for English-only transcripts. */
  const EnglishInstruction: string :=
    "You are an expert " +
    "assistant skilled at summarizing meeting or lecture transcripts in English.\n\nYour task is to produce structured notes from the transcript below using Markdown formatting. The notes should include the following sections:\n\n    * **## Title**\n        * Create a concise, descriptive title for the transcript content (one line).\n\n    * **## Key Takeaways**\n        * Provide 2-3 main conclusions or most important points from the discussion.\n\n    * **## Summary Points**\n        * List 6-12 bullet points covering the core arguments, key information presented, decisions made, and significant questions raised.\n        * Each point should be 1-2 sentences.\n        * Include relevant timestamps `[start-end]` where appropriate to reference specific moments in the transcript.\n\n    * **## Key Definitions** (Omit this section if none are found)\n        * List any important terms or concepts defined in the transcript, along with their definitions.\n        * Include timestamps `[start-end]` for context.\n\n    * **## Action Items / Next Steps** (Omit this section if none are found)\n        * List specific tasks, follow-ups, or next steps mentioned.\n        * For each item, clearly state the task, who is responsible (if mentioned), and any deadlines mentioned.\n        * Include timestamps `[start-end]`.\n\nMaintain a concise, objective, and professional tone throughout the notes. Ensure all information accurately reflects the content of the transcript."

  /** What separates the instruction from the transcript in a prompt. */
  const TranscriptMarker: string := "\n\nTranscript:\n"

  function Instruction(translateFirst: bool): string {
    if translateFirst then TranslateInstruction else EnglishInstruction
  }

  /** The two instructions are different texts: they part at their tenth character. */
  lemma InstructionsDiffer()
    ensures |TranslateInstruction| > 9 && |EnglishInstruction| > 9
    ensures TranslateInstruction[9] == ' ' && EnglishInstruction[9] == 'n'
    ensures TranslateInstruction != EnglishInstruction
  {
  }

  /** The prompt: the chosen instruction, the transcript marker, then the transcript verbatim. */
  function BuildPrompt(transcript: string, translateFirst: bool := true): (prompt: string)
    ensures |prompt| == |Instruction(translateFirst)| + |TranscriptMarker| + |transcript|
    ensures prompt[..|Instruction(translateFirst)|] == Instruction(translateFirst)
    ensures prompt[|Instruction(translateFirst)|..|prompt| - |transcript|] == TranscriptMarker
    ensures prompt[|prompt| - |transcript|..] == transcript
  {
    ThreeParts(Instruction(translateFirst), TranscriptMarker, transcript);
    Instruction(translateFirst) + TranscriptMarker + transcript
  }

  lemma ThreeParts(a: string, b: string, c: string)
    ensures var s := a + b + c;
      s[..|a|] == a && s[|a|..|s| - |c|] == b && s[|s| - |c|..] == c
  {
    var s := a + b + c;
    assert s[|a|..|s| - |c|] == b;
  }

  /** Reads a prompt back: which instruction it starts with, and the transcript after the marker. */
  function ParsePrompt(prompt: string): Option<(bool, string)>
  {
    var translating := TranslateInstruction + TranscriptMarker;
    var english := EnglishInstruction + TranscriptMarker;
    if translating <= prompt then Some((true, prompt[|translating|..]))
    else if english <= prompt then Some((false, prompt[|english|..]))
    else None
  }

  /** A prompt determines the flag and the transcript it was built from. */
  lemma ParseBuildPrompt(transcript: string, translateFirst: bool)
    ensures ParsePrompt(BuildPrompt(transcript, translateFirst)) == Some((translateFirst, transcript))
  {
    var prompt := BuildPrompt(transcript, translateFirst);
    var translating := TranslateInstruction + TranscriptMarker;
    InstructionsDiffer();
    if translateFirst {
      assert translating <= prompt;
    } else {
      assert prompt[9] == 'n' && translating[9] == ' ';
      assert !(translating <= prompt);
    }
  }

  lemma BuildPromptInjective(t1: string, f1: bool, t2: string, f2: bool)
    requires BuildPrompt(t1, f1) == BuildPrompt(t2, f2)
    ensures t1 == t2 && f1 == f2
  {
    ParseBuildPrompt(t1, f1);
    ParseBuildPrompt(t2, f2);
  }

  /** The heading of the fallback summary. */
  const HeuristicTitle: string := "Notes (auto)"

  /** At most this many transcript lines become bullets. */
  const MaxBullets: nat := 12

  /** Each bullet keeps at most this many characters of its line. */
  const MaxBulletChars: nat := 200

  function BulletOf(line: string): string {
    "- " + Take(line, MaxBulletChars)
  }

  /** The bullets of the given lines, one per line, built in order. */
  function BulletsOf(lines: seq<string>): seq<string>
  {
    if lines == [] then []
    else BulletsOf(lines[..|lines| - 1]) + [BulletOf(lines[|lines| - 1])]
  }

  /** The transcript lines the fallback summary draws on: each line stripped, blank ones dropped. */
  function SummaryLines(transcript: string): seq<string> {
    NonBlankStripped(SplitLines(transcript))
  }

  function HeuristicBullets(transcript: string): seq<string> {
    var lines := SummaryLines(transcript);
    BulletsOf(lines[..if |lines| < MaxBullets then |lines| else MaxBullets])
  }

  /** The fallback summary: the heading, a blank line, then the bullets one per line. */
  function HeuristicNotes(transcript: string): (notes: string)
    ensures |notes| >= |HeuristicTitle| + 2
    ensures notes[..|HeuristicTitle| + 2] == "Notes (auto)\n\n"
  {
    var notes := HeuristicTitle + "\n\n" + Join(HeuristicBullets(transcript), "\n");
    assert notes[..|HeuristicTitle| + 2] == HeuristicTitle + "\n\n";
    notes
  }

  /** The fallback summary as the source computes it, appending one bullet per loop turn. */
  method HeuristicSummary(transcript: string) returns (notes: string)
    ensures notes == HeuristicNotes(transcript)
  {
    var lines := SummaryLines(transcript);
    var bullets: seq<string> := [];
    var n := if |lines| < MaxBullets then |lines| else MaxBullets;
    for i := 0 to n
      invariant bullets == BulletsOf(lines[..i])
    {
      assert lines[..i + 1][..i] == lines[..i];
      bullets := bullets + ["- " + Take(lines[i], MaxBulletChars)];
    }
    notes := HeuristicTitle + "\n\n" + Join(bullets, "\n");
  }

  /** Bullet `i` is the marker followed by the first characters of line `i`. */
  lemma {:induction false} BulletsOfAt(lines: seq<string>)
    ensures |BulletsOf(lines)| == |lines|
    ensures forall i | 0 <= i < |lines| :: BulletsOf(lines)[i] == BulletOf(lines[i])
  {
    if lines != [] {
      BulletsOfAt(lines[..|lines| - 1]);
    }
  }

  /** The fallback bullets: as many as there are non-blank lines, but at most twelve; bullet `i`
      is "- " and the first 200 characters of the `i`-th non-blank stripped line, so it is at
      most 202 characters long and holds no line break. */
  lemma HeuristicBulletsShape(transcript: string)
    ensures var lines := SummaryLines(transcript);
      && |HeuristicBullets(transcript)| == (if |lines| < 12 then |lines| else 12)
      && forall i | 0 <= i < |HeuristicBullets(transcript)| ::
           && HeuristicBullets(transcript)[i] == "- " + Take(lines[i], 200)
           && |HeuristicBullets(transcript)[i]| <= 202
           && '\n' !in HeuristicBullets(transcript)[i]
  {
    var lines := SummaryLines(transcript);
    var n := if |lines| < MaxBullets then |lines| else MaxBullets;
    BulletsOfAt(lines[..n]);
    forall i | 0 <= i < n ensures '\n' !in lines[i] {
      NonBlankKeepsLines(SplitLines(transcript), i);
    }
    forall i | 0 <= i < n ensures '\n' !in BulletOf(lines[i]) {
      assert forall c | c in Take(lines[i], MaxBulletChars) :: c in lines[i];
    }
  }

  /** Every stripped non-blank line comes from a line, so holds no line feed when no line does. */
  lemma {:induction false} NonBlankKeepsLines(lines: seq<string>, i: nat)
    requires forall j | 0 <= j < |lines| :: '\n' !in lines[j]
    requires i < |NonBlankStripped(lines)|
    ensures '\n' !in NonBlankStripped(lines)[i]
  {
    var init := lines[..|lines| - 1];
    if i < |NonBlankStripped(init)| {
      NonBlankKeepsLines(init, i);
    } else {
      assert NonBlankStripped(lines)[i] == Strip(lines[|lines| - 1]);
      StripKeepsChars(lines[|lines| - 1]);
    }
  }

  /** Read line by line, the fallback summary is its heading, a blank line and the bullets. */
  lemma HeuristicNotesLines(transcript: string)
    ensures var bullets := HeuristicBullets(transcript);
      Split(HeuristicNotes(transcript), "\n")
        == [HeuristicTitle, ""] + (if bullets == [] then [""] else bullets)
  {
    var bullets := HeuristicBullets(transcript);
    assert forall i | 0 <= i < |bullets| :: '\n' !in bullets[i] by {
      HeuristicBulletsShape(transcript);
    }
    var tail := if bullets == [] then [""] else bullets;
    var rows := [HeuristicTitle, ""] + tail;
    assert Join(tail, "\n") == Join(bullets, "\n");
    assert Join(rows, "\n") == HeuristicNotes(transcript) by {
      assert rows[1..] == [""] + tail;
      assert ([""] + tail)[1..] == tail;
      assert Join(rows[1..], "\n") == "" + "\n" + Join(tail, "\n");
      assert Join(rows, "\n") == HeuristicTitle + "\n" + Join(rows[1..], "\n");
    }
    forall i | 0 <= i < |rows| ensures '\n' !in rows[i] {
      if i >= 2 { assert rows[i] == tail[i - 2]; }
    }
    SplitJoin(rows, '\n');
  }

  /** The outcome of one call to the hosted model: its text, or the message of the error raised. */
  datatype Reply = Ok(text: string) | Err(message: string)

  /** A configured model client; sending it a prompt yields a reply. */
  datatype Client = Client(generate: string -> Reply)

  const NoClientNote: string := "(Gemini not available" + " \U{2014} returning fallback summary)\n\n"

  function ErrorNote(message: string): string {
    "(Fallback summary due to Gemini error: " + message + ")\n\n"
  }

  /** Summarises a transcript. Never fails: a missing client or a failing call falls back to the
      heuristic summary, prefixed by a note that names the path taken. */
  method Summarize(transcript: string, translateFirst: bool := true, llm: Option<Client>)
    returns (text: string)
    ensures llm.None? ==> text == NoClientNote + HeuristicNotes(transcript)
    ensures llm.Some? ==>
      match llm.value.generate(BuildPrompt(transcript, translateFirst))
      case Ok(answer) => text == answer
      case Err(message) => text == ErrorNote(message) + HeuristicNotes(transcript)
  {
    var prompt := BuildPrompt(transcript, translateFirst);
    if llm.Some? {
      var reply := llm.value.generate(prompt);
      match reply {
        case Ok(answer) =>
          text := answer;
        case Err(message) =>
          var fallback := HeuristicSummary(transcript);
          text := ErrorNote(message) + fallback;
      }
    } else {
      var fallback := HeuristicSummary(transcript);
      text := NoClientNote + fallback;
    }
  }

  /** The two fallback paths can be told apart from their output, and the error path gives back
      the message it was given. */
  lemma FallbackNotesDistinct(m1: string, m2: string, transcript: string)
    ensures ErrorNote(m1) + HeuristicNotes(transcript) != NoClientNote + HeuristicNotes(transcript)
    ensures ErrorNote(m1) + HeuristicNotes(transcript) == ErrorNote(m2) + HeuristicNotes(transcript)
      ==> m1 == m2
  {
    var h := HeuristicNotes(transcript);
    assert (ErrorNote(m1) + h)[1] == 'F' && (NoClientNote + h)[1] == 'G';
    if ErrorNote(m1) + h == ErrorNote(m2) + h {
      assert |m1| == |m2|;
      assert m1 == (ErrorNote(m1) + h)[39..39 + |m1|];
      assert m2 == (ErrorNote(m2) + h)[39..39 + |m2|];
    }
  }
}
