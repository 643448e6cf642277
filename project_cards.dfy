/** Turning one fetched Markdown document into a gallery card (scripts.js,
    lines 57-63): blank lines are dropped, the first remaining line loses a single
    leading `#` and the whitespace after it and becomes the title (or the file name
    without its first `.md` when nothing is left), and the next up-to-four lines,
    joined by single spaces, are the preview Markdown. */
module ProjectCards {
  import opened Outcomes
  import opened Sequences
  import opened JsText

  /** A card as the loader builds it: the heading, the Markdown that the (opaque)
      renderer turns into the preview, and the URL its "View Full" button carries. */
  datatype Card = Card(title: string, previewMarkdown: string, url: string)

  const LF: char := '\n'

  /** `lines.filter(l => l.trim())`: the lines whose trimmed form is non-empty,
      each kept with its original text, in their original order. */
  function NonBlank(lines: seq<string>): (kept: seq<string>)
    ensures |kept| <= |lines|
    ensures forall l | l in kept :: l in lines && !IsBlank(l)
    ensures forall l | l in lines && !IsBlank(l) :: l in kept
    decreases |lines|
  {
    if lines == [] then []
    else
      TrimEmptyIffBlank(lines[0]);
      if Trim(lines[0]) != "" then [lines[0]] + NonBlank(lines[1..])
      else NonBlank(lines[1..])
  }

  /** `rawMd.split('\n').filter(l => l.trim())`. */
  function KeptLines(raw: string): (lines: seq<string>)
    ensures forall l | l in lines :: l != "" && LF !in l
  {
    SplitAvoidsSep(raw, LF);
    NonBlank(Split(raw, LF))
  }

  /** The filter of one line keeps it exactly when it is not blank. */
  lemma NonBlankSingle(l: string)
    ensures NonBlank([l]) == if IsBlank(l) then [] else [l]
  {
    TrimEmptyIffBlank(l);
    assert [l][1..] == [];
  }

  /** The filter works line by line and keeps the order: filtering two runs of
      lines one after the other is filtering each and concatenating. */
  lemma {:induction false} NonBlankAppend(a: seq<string>, b: seq<string>)
    ensures NonBlank(a + b) == NonBlank(a) + NonBlank(b)
    decreases |a|
  {
    if a != [] {
      assert (a + b)[0] == a[0];
      assert (a + b)[1..] == a[1..] + b;
      NonBlankAppend(a[1..], b);
      TrimEmptyIffBlank(a[0]);
    } else {
      assert a + b == b;
    }
  }

  /** Line `i` is the first line that is not blank. */
  ghost predicate FirstNonBlankAt(lines: seq<string>, i: int)
  {
    && 0 <= i < |lines|
    && !IsBlank(lines[i])
    && forall j | 0 <= j < i :: IsBlank(lines[j])
  }

  /** What `lines[0]` is after the filter: the first line of the document that is
      not blank, with its text unchanged. */
  lemma {:induction false} NonBlankFirst(lines: seq<string>)
    requires NonBlank(lines) != []
    ensures exists i :: FirstNonBlankAt(lines, i) && NonBlank(lines)[0] == lines[i]
    decreases |lines|
  {
    TrimEmptyIffBlank(lines[0]);
    if IsBlank(lines[0]) {
      NonBlankFirst(lines[1..]);
      var i :| FirstNonBlankAt(lines[1..], i) && NonBlank(lines[1..])[0] == lines[1..][i];
      assert forall j | 1 <= j <= i :: lines[j] == lines[1..][j - 1];
      assert FirstNonBlankAt(lines, i + 1);
    } else {
      assert FirstNonBlankAt(lines, 0);
    }
  }

  /** A document is all whitespace exactly when every one of its lines is blank
      (the line feeds themselves being whitespace). */
  lemma {:induction false} BlankIffLinesBlank(raw: string)
    ensures IsBlank(raw) <==> forall l | l in Split(raw, LF) :: IsBlank(l)
    decreases |raw|
  {
    if raw != [] {
      BlankIffLinesBlank(raw[1..]);
      var rest := Split(raw[1..], LF);
      assert IsBlank(raw) <==> IsWhitespace(raw[0]) && IsBlank(raw[1..]) by {
        assert forall i | 1 <= i < |raw| :: raw[i] == raw[1..][i - 1];
      }
      if raw[0] != LF {
        var first := [raw[0]] + rest[0];
        assert Split(raw, LF) == [first] + rest[1..];
        assert IsBlank(first) <==> IsWhitespace(raw[0]) && IsBlank(rest[0]) by {
          assert first[0] == raw[0];
          assert forall i | 0 <= i < |rest[0]| :: first[i + 1] == rest[0][i];
        }
        assert forall l | l in rest :: l == rest[0] || l in rest[1..];
      }
    }
  }

  /** No line survives the filter exactly when the whole document is whitespace;
      that is the case in which `lines[0]` is undefined and the loader throws. */
  lemma NoKeptLinesIffBlank(raw: string)
    ensures KeptLines(raw) == [] <==> IsBlank(raw)
  {
    BlankIffLinesBlank(raw);
    var lines := Split(raw, LF);
    if KeptLines(raw) == [] {
      assert forall l | l in lines :: IsBlank(l);
    } else {
      assert KeptLines(raw)[0] in KeptLines(raw);
    }
  }

  /** `line.replace` with the pattern `^#\s*` and an empty replacement: one leading
      `#` and the run of whitespace after it are removed; a line that does not
      start with `#` is returned unchanged. */
  function StripHeading(line: string): string
  {
    if |line| > 0 && line[0] == '#' then TrimStart(line[1..]) else line
  }

  /** What the pattern removes: for a line starting with `#`, the line is that `#`,
      a run of whitespace, and the result, which does not begin with whitespace;
      any other line is returned as it is. */
  lemma StripHeadingSpec(line: string)
    ensures var r := StripHeading(line);
      && (!(|line| > 0 && line[0] == '#') ==> r == line)
      && (|line| > 0 && line[0] == '#' ==>
            && |r| < |line|
            && line == "#" + line[1..|line| - |r|] + r
            && IsBlank(line[1..|line| - |r|])
            && (r == "" || !IsWhitespace(r[0])))
  {
    if |line| > 0 && line[0] == '#' {
      var r := TrimStart(line[1..]);
      TrimStartSpec(line[1..]);
      assert line[1..][..|line| - 1 - |r|] == line[1..|line| - |r|];
    }
  }

  /** Only one `#` goes: a second-level heading keeps one marker. */
  lemma StripHeadingKeepsSecondMarker(rest: string)
    ensures StripHeading("##" + rest) == "#" + rest
  {
    var line := "##" + rest;
    assert line[1..] == "#" + rest;
  }

  /** The stripped line is empty exactly when the line is `#` followed only by
      whitespace (or is empty). */
  lemma StripHeadingEmptyIff(line: string)
    ensures StripHeading(line) == "" <==> line == "" || (line[0] == '#' && IsBlank(line[1..]))
  {
    StripHeadingSpec(line);
  }

  /** The stripped first line, or, when that is the empty (falsy) string,
      `file.name.replace('.md', '')`. */
  function CardTitle(firstLine: string, fileName: string): string
  {
    var stripped := StripHeading(firstLine);
    if stripped != "" then stripped else RemoveFirst(fileName, ".md")
  }

  /** For a file the loop accepts (its name ends in `.md`), the title is empty
      exactly when the first line strips to nothing and the name is `.md` itself. */
  lemma CardTitleEmptyIff(firstLine: string, fileName: string)
    requires EndsWith(fileName, ".md")
    ensures CardTitle(firstLine, fileName) == "" <==>
      StripHeading(firstLine) == "" && fileName == ".md"
  {
    EndsWithRemovesFirst(fileName, ".md");
    if fileName == ".md" {
      assert |RemoveFirst(fileName, ".md")| == 0;
    }
  }

  /** `lines.slice(1, 5).join(' ')`. */
  function PreviewMarkdown(lines: seq<string>): string
  {
    var n := |lines|;
    Join(lines[if n < 1 then n else 1..if n < 5 then n else 5], ' ')
  }

  /** For kept lines (non-empty, no line feed) the preview is empty exactly when
      only the title line remains, spans no more than four lines, holds no line
      feed, and begins with the second kept line. */
  lemma PreviewShape(lines: seq<string>)
    requires forall l | l in lines :: l != "" && LF !in l
    ensures PreviewMarkdown(lines) == "" <==> |lines| <= 1
    ensures LF !in PreviewMarkdown(lines)
    ensures |lines| >= 2 ==> PreviewMarkdown(lines)[..|lines[1]|] == lines[1]
  {
    var n := |lines|;
    var shown := lines[if n < 1 then n else 1..if n < 5 then n else 5];
    assert |shown| <= 4;
    JoinEmptyIff(shown, ' ');
    if n == 2 {
      assert shown == [lines[1]];
    }
    if n >= 2 {
      assert shown[0] == lines[1] && shown[0] in shown;
    }
    JoinAvoids(shown, ' ', LF);
  }

  /** Only kept lines 2 to 5 are shown: lines after the fifth, and the title line
      itself, do not change the preview. */
  lemma PreviewWindow(lines: seq<string>, title: string)
    ensures PreviewMarkdown(lines) == PreviewMarkdown(lines[..if |lines| < 5 then |lines| else 5])
    ensures |lines| >= 1 ==> PreviewMarkdown([title] + lines[1..]) == PreviewMarkdown(lines)
  {
    var n := |lines|;
    var capped := lines[..if n < 5 then n else 5];
    assert capped[if n < 1 then n else 1..if n < 5 then n else 5]
        == lines[if n < 1 then n else 1..if n < 5 then n else 5];
    if n >= 1 {
      var other := [title] + lines[1..];
      assert other[1..if n < 5 then n else 5] == lines[1..if n < 5 then n else 5];
    }
  }

  /** The preview's text, for any lines: splitting it at the spaces gives the
      space-separated words of kept lines 2 to 5, line after line. Since `JoinSplit`
      makes `Split` one-to-one, no other text splits this way. */
  lemma PreviewText(lines: seq<string>)
    requires |lines| >= 2
    ensures Split(PreviewMarkdown(lines), ' ') ==
      SplitEach(lines[1..if |lines| < 5 then |lines| else 5], ' ')
  {
    SplitJoinEach(lines[1..if |lines| < 5 then |lines| else 5], ' ');
  }

  /** When the shown lines hold no spaces the preview reads back as those lines:
      splitting it at the spaces gives exactly kept lines 2 to 5, in order. The
      title line and lines after the fifth may hold anything. */
  lemma PreviewSplit(lines: seq<string>)
    requires |lines| >= 2
    requires forall l | l in lines[1..if |lines| < 5 then |lines| else 5] :: ' ' !in l
    ensures Split(PreviewMarkdown(lines), ' ') == lines[1..if |lines| < 5 then |lines| else 5]
  {
    PreviewText(lines);
    SplitEachWithoutSep(lines[1..if |lines| < 5 then |lines| else 5], ' ');
  }

  /** One document's card, or None when every line is blank (the loader throws
      there, on `lines[0]` being undefined). */
  function ExtractCard(fileName: string, url: string, raw: string): Option<Card>
  {
    var lines := KeptLines(raw);
    if lines == [] then None
    else Some(Card(CardTitle(lines[0], fileName), PreviewMarkdown(lines), url))
  }

  /** The fallback title is the file name with its first `.md` taken out: putting
      `.md` back at the first index where it occurs rebuilds the name. It is three
      characters shorter, and holds a line feed only if the file name does. */
  lemma FallbackTitleFromName(fileName: string)
    requires EndsWith(fileName, ".md")
    ensures IndexOf(fileName, ".md").Some?
    ensures var k, title := IndexOf(fileName, ".md").value, RemoveFirst(fileName, ".md");
      && k + 3 <= |fileName|
      && fileName[k..k + 3] == ".md"
      && (forall j | 0 <= j < k :: !OccursAt(fileName, ".md", j))
      && |title| + 3 == |fileName|
      && fileName == title[..k] + ".md" + title[k..]
    ensures LF !in fileName ==> LF !in RemoveFirst(fileName, ".md")
  {
    EndsWithRemovesFirst(fileName, ".md");
    var k := IndexOf(fileName, ".md").value;
    var title := fileName[..k] + fileName[k + 3..];
    assert title == RemoveFirst(fileName, ".md");
    forall i | 0 <= i < |title| ensures title[i] in fileName {
      if i < k {
        assert title[i] == fileName[i];
      } else {
        assert title[i] == fileName[i + 3];
      }
    }
  }

  /** A title taken from a line without line feeds, or from a file name without
      them, has none either. */
  lemma CardTitleOneLine(firstLine: string, fileName: string)
    requires EndsWith(fileName, ".md")
    requires LF !in firstLine && LF !in fileName
    ensures LF !in CardTitle(firstLine, fileName)
  {
    FallbackTitleFromName(fileName);
    StripHeadingSpec(firstLine);
    var stripped := StripHeading(firstLine);
    if stripped != "" && firstLine[0] == '#' {
      forall i | 0 <= i < |stripped| ensures stripped[i] in firstLine {
        assert stripped[i] == firstLine[|firstLine| - |stripped| + i];
      }
    }
  }

  /** What a document yields: nothing exactly when it is all whitespace; otherwise
      a card that carries the fetched URL, whose title is the first non-blank line
      of the document with its heading marker stripped (or, when that strips to
      nothing, the file name less its first `.md`), whose preview is one line,
      empty exactly when one line is kept, and splits at its spaces into the words
      of kept lines 2 to 5 (so into those lines themselves when they hold no
      spaces), and whose title is one line when the file name
      is, and non-empty for every `.md` file other than one named `.md`. */
  lemma ExtractCardSpec(fileName: string, url: string, raw: string)
    requires EndsWith(fileName, ".md")
    ensures ExtractCard(fileName, url, raw).None? <==> IsBlank(raw)
    ensures ExtractCard(fileName, url, raw).Some? ==>
      var card, lines := ExtractCard(fileName, url, raw).value, KeptLines(raw);
      && card.url == url
      && (exists i :: FirstNonBlankAt(Split(raw, LF), i) && card.title ==
            if StripHeading(Split(raw, LF)[i]) != "" then StripHeading(Split(raw, LF)[i])
            else RemoveFirst(fileName, ".md"))
      && LF !in card.previewMarkdown
      && (card.previewMarkdown == "" <==> |lines| == 1)
      && (|lines| >= 2 ==>
            Split(card.previewMarkdown, ' ') ==
              SplitEach(lines[1..if |lines| < 5 then |lines| else 5], ' '))
      && (|lines| >= 2 &&
          (forall l | l in lines[1..if |lines| < 5 then |lines| else 5] :: ' ' !in l) ==>
            Split(card.previewMarkdown, ' ') == lines[1..if |lines| < 5 then |lines| else 5])
      && (LF !in fileName ==> LF !in card.title)
      && (fileName != ".md" ==> card.title != "")
  {
    NoKeptLinesIffBlank(raw);
    var lines := KeptLines(raw);
    if lines != [] {
      PreviewShape(lines);
      CardTitleEmptyIff(lines[0], fileName);
      assert lines[0] in lines;
      if LF !in fileName {
        CardTitleOneLine(lines[0], fileName);
      }
      NonBlankFirst(Split(raw, LF));
      if |lines| >= 2 {
        PreviewText(lines);
        if forall l | l in lines[1..if |lines| < 5 then |lines| else 5] :: ' ' !in l {
          PreviewSplit(lines);
        }
      }
    }
  }
}
