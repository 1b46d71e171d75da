/**
 * What `gtf_to_attributes_dict` promises, proved about the model in
 * `SpankiUtils`: how an attribute token is read, what one line does to the
 * table, and what the whole scan returns.
 */
module GtfProperties {
  import opened PyStr
  import opened SpankiUtils

  // ---------------------------------------------------------------------------
  // Attribute tokens
  // ---------------------------------------------------------------------------

  /** `t` is the word `k`, one space, the word `w`, then nothing or a further space. */
  predicate TwoWords(t: string, k: string, w: string, rest: string)
  {
    && t == k + " " + w + rest
    && ' ' !in k && ' ' !in w
    && (rest == [] || rest[0] == ' ')
  }

  /** A token has no value exactly when it holds no space once stripped. */
  lemma ParseAttributeFailsIffNoSpace(token: string)
    ensures ParseAttribute(token).None? <==> ' ' !in Strip(token, Whitespace)
  {
    var t := Strip(token, Whitespace);
    SplitCutsIffContains(t, " ");
    ContainsChar(t, ' ');
  }

  /**
   * The key is the first space-separated word of the stripped token and the
   * value is the second word with its leading and trailing double quotes
   * removed; whatever follows the second word is ignored.
   */
  lemma ParseAttributeReadsTwoWords(token: string)
    requires ParseAttribute(token).Some?
    ensures var kv := ParseAttribute(token).value;
            exists w, rest :: TwoWords(Strip(token, Whitespace), kv.0, w, rest) && kv.1 == Strip(w, Quote)
  {
    var t := Strip(token, Whitespace);
    var attr := Split(t, " ");
    var rest := SplitTwoWords(t);
    assert TwoWords(t, attr[0], attr[1], rest);
  }

  /** A string that splits at spaces into at least two pieces is its first two pieces and then the rest. */
  lemma SplitTwoWords(t: string) returns (rest: string)
    requires |Split(t, " ")| >= 2
    ensures TwoWords(t, Split(t, " ")[0], Split(t, " ")[1], rest)
  {
    var attr := Split(t, " ");
    SplitSpec(t, " ");
    ContainsChar(attr[0], ' ');
    ContainsChar(attr[1], ' ');
    assert attr == [attr[0]] + attr[1..];
    JoinCons(attr[0], attr[1..], " ");
    if |attr| == 2 {
      rest := [];
      assert attr[1..] == [attr[1]];
    } else {
      rest := " " + Join(attr[2..], " ");
      assert attr[1..] == [attr[1]] + attr[2..];
      JoinCons(attr[1], attr[2..], " ");
    }
  }

  /** Conversely, a stripped token made of two words (and possibly more) is read as those two words. */
  lemma ParseAttributeOfTwoWords(token: string, k: string, w: string, rest: string)
    requires TwoWords(Strip(token, Whitespace), k, w, rest)
    ensures ParseAttribute(token) == Some((k, Strip(w, Quote)))
  {
    var t := Strip(token, Whitespace);
    var pieces := TwoWordsPieces(t, k, w, rest);
    SplitCharUnique(t, ' ', pieces);
  }

  /** The space-free pieces that `t`, made of the words `k` and `w` and then `rest`, joins back from. */
  lemma TwoWordsPieces(t: string, k: string, w: string, rest: string) returns (pieces: seq<string>)
    requires TwoWords(t, k, w, rest)
    ensures |pieces| >= 2 && pieces[0] == k && pieces[1] == w
    ensures Join(pieces, " ") == t
    ensures forall j :: 0 <= j < |pieces| ==> ' ' !in pieces[j]
  {
    if rest == [] {
      pieces := [k, w];
      JoinCons(k, [w], " ");
    } else {
      var tail := Split(rest[1..], " ");
      SplitSpec(rest[1..], " ");
      pieces := [k] + ([w] + tail);
      JoinCons(w, tail, " ");
      JoinCons(k, [w] + tail, " ");
      assert rest == " " + rest[1..];
      forall j | 0 <= j < |pieces| ensures ' ' !in pieces[j] {
        if j >= 2 {
          assert pieces[j] == tail[j - 2];
          ContainsChar(tail[j - 2], ' ');
        }
      }
    }
  }

  /** A token `key "value"` (a word, one space, a double-quoted word) reads as `key` bound to `value`. */
  lemma ParseQuotedAttribute(key: string, value: string)
    requires key != [] && key[0] !in Whitespace && ' ' !in key
    requires ' ' !in value && '"' !in value
    ensures ParseAttribute(key + " \"" + value + "\"") == Some((key, value))
  {
    var w := "\"" + value + "\"";
    var t := key + " " + w;
    assert t == key + " \"" + value + "\"";
    assert t[0] == key[0] && t[|t| - 1] == '"';
    TrimLeftNoop(t, Whitespace);
    TrimRightNoop(t, Whitespace);
    assert ' ' !in w by {
      assert forall i :: 0 <= i < |w| ==> w[i] == '"' || w[i] == value[i - 1];
    }
    assert TwoWords(t, key, w, []);
    ParseAttributeOfTwoWords(t, key, w, []);
    if value == [] {
      assert w[1..] == "\"" && w[1..][1..] == [];
      assert TrimLeft(w[1..], Quote) == [];
      assert TrimLeft(w, Quote) == [];
      assert TrimRight([], Quote) == [];
    } else {
      assert TrimLeft(w, Quote) == value + "\"" by {
        assert w[1..] == value + "\"";
        TrimLeftNoop(value + "\"", Quote);
      }
      assert (value + "\"")[..|value|] == value;
      TrimRightNoop(value, Quote);
    }
  }

  // ---------------------------------------------------------------------------
  // The per-line attribute dictionary
  // ---------------------------------------------------------------------------

  /** Token `j` is well formed and has key `key`. */
  ghost predicate Binds(tokens: seq<string>, j: int, key: string)
  {
    0 <= j < |tokens| && ParseAttribute(tokens[j]).Some? && ParseAttribute(tokens[j]).value.0 == key
  }

  /** Token `j` is the last one with key `key`. */
  ghost predicate LastBinding(tokens: seq<string>, j: int, key: string)
  {
    Binds(tokens, j, key) && forall j' :: j < j' < |tokens| ==> !Binds(tokens, j', key)
  }

  /** The value of the last well-formed token with key `key`, searched from the end of the line. */
  function LastValue(tokens: seq<string>, key: string): Option<string>
    decreases |tokens|
  {
    if tokens == [] then None
    else
      var p := ParseAttribute(tokens[|tokens| - 1]);
      if p.Some? && p.value.0 == key then Some(p.value.1)
      else LastValue(tokens[..|tokens| - 1], key)
  }

  /** `LastValue` is the value of the last token with that key, and `None` when no token has it. */
  lemma {:induction false} LastValueIsLastBinding(tokens: seq<string>, key: string)
    ensures LastValue(tokens, key).None? <==> forall j :: 0 <= j < |tokens| ==> !Binds(tokens, j, key)
    ensures LastValue(tokens, key).Some? ==>
              exists j :: LastBinding(tokens, j, key) && ParseAttribute(tokens[j]).value.1 == LastValue(tokens, key).value
    decreases |tokens|
  {
    if tokens != [] {
      var n := |tokens| - 1;
      var front := tokens[..n];
      var p := ParseAttribute(tokens[n]);
      LastValueIsLastBinding(front, key);
      forall j | 0 <= j < n ensures Binds(tokens, j, key) == Binds(front, j, key) {
        assert tokens[j] == front[j];
      }
      if p.Some? && p.value.0 == key {
        assert LastBinding(tokens, n, key);
      } else if LastValue(front, key).Some? {
        var j :| LastBinding(front, j, key) && ParseAttribute(front[j]).value.1 == LastValue(front, key).value;
        assert tokens[j] == front[j];
        assert LastBinding(tokens, j, key);
      }
    }
  }

  /** The line's dictionary is missing exactly when some token has no value. */
  lemma {:induction false} LineDictFailsIffBadToken(tokens: seq<string>)
    ensures LineDict(tokens).None? <==> exists j :: 0 <= j < |tokens| && ParseAttribute(tokens[j]).None?
    decreases |tokens|
  {
    if tokens != [] {
      var n := |tokens| - 1;
      var front := tokens[..n];
      LineDictFailsIffBadToken(front);
      if exists j :: 0 <= j < n && ParseAttribute(front[j]).None? {
        var j :| 0 <= j < n && ParseAttribute(front[j]).None?;
        assert tokens[j] == front[j];
      }
      if exists j :: 0 <= j < |tokens| && ParseAttribute(tokens[j]).None? {
        var j :| 0 <= j < |tokens| && ParseAttribute(tokens[j]).None?;
        if j < n {
          assert front[j] == tokens[j];
        }
      }
    }
  }

  /** Each key of the line's dictionary holds the value of the last token with that key. */
  lemma {:induction false} LineDictKeepsLastValue(tokens: seq<string>)
    requires LineDict(tokens).Some?
    ensures forall key :: key in LineDict(tokens).value <==> LastValue(tokens, key).Some?
    ensures forall key :: key in LineDict(tokens).value ==> LineDict(tokens).value[key] == LastValue(tokens, key).value
    decreases |tokens|
  {
    if tokens != [] {
      var n := |tokens| - 1;
      LineDictKeepsLastValue(tokens[..n]);
    }
  }

  // ---------------------------------------------------------------------------
  // One line
  // ---------------------------------------------------------------------------

  /** The line has at least nine tab fields and its third field is exactly "exon". */
  predicate IsExonRecord(raw: string)
  {
    var f := Fields(raw);
    |f| >= 9 && f[2] == Exon
  }

  /** The attribute tokens of an exon line. */
  function ExonTokens(raw: string): seq<string>
    requires IsExonRecord(raw)
  {
    AttributeTokens(Fields(raw)[8])
  }

  /**
   * The attribute field is cut at `"; "` in exactly one way: any pieces free
   * of `"; "` that join back to the field are its pieces.
   */
  lemma AttributeSplitUnique(field: string, pieces: seq<string>)
    requires |pieces| >= 1 && Join(pieces, AttributeSeparator) == field
    requires forall k :: 0 <= k < |pieces| ==> !Contains(pieces[k], AttributeSeparator)
    ensures Split(field, AttributeSeparator) == pieces
  {
    assert BorderFree(AttributeSeparator) by {
      assert AttributeSeparator[..1] == ";" && AttributeSeparator[1..] == " ";
    }
    SplitUnique(field, AttributeSeparator, pieces);
  }

  /** Fields without tabs, joined with tabs and ending in a visible character, are read back as those fields. */
  lemma FieldsOfJoin(fields: seq<string>)
    requires |fields| >= 1 && forall k :: 0 <= k < |fields| ==> '\t' !in fields[k]
    requires var last := fields[|fields| - 1]; last != [] && last[|last| - 1] !in Whitespace
    ensures Fields(Join(fields, Tab)) == fields
  {
    var line := Join(fields, Tab);
    var last := fields[|fields| - 1];
    JoinEndsWithLast(fields, Tab);
    assert line[|line| - 1] == last[|last| - 1];
    TrimRightNoop(line, Whitespace);
    SplitJoined(fields, Tab, []);
    assert line + [] == line && last + [] == last;
    assert fields[..|fields| - 1] + [last] == fields;
  }

  /** A line leaves the table alone exactly when it has a single field, or at least three fields with a third field other than "exon". */
  lemma SkipIffNotExon(raw: string)
    ensures ProcessLine(raw) == Skip <==> (var f := Fields(raw); |f| == 1 || (|f| >= 3 && f[2] != Exon))
  {
  }

  /** A line without a tab character is ignored. */
  lemma NoTabLineIgnored(raw: string)
    requires '\t' !in raw
    ensures ProcessLine(raw) == Skip
  {
    var line := TrimRight(raw, Whitespace);
    TrimRightSpec(raw, Whitespace);
    assert '\t' !in line by {
      assert line == raw[..|line|];
    }
    ContainsChar(line, '\t');
    SplitCutsIffContains(line, Tab);
  }

  /**
   * A line whose field 2 or field 8 is out of reach fails: two fields, or an
   * exon line with fewer than nine.
   */
  lemma FieldMissingIffShort(raw: string)
    ensures ProcessLine(raw) == Fail(FieldMissing(TrimRight(raw, Whitespace)))
            <==> (var f := Fields(raw); |f| == 2 || (3 <= |f| < 9 && f[2] == Exon))
  {
  }

  /** An exon line with a token that has no space fails as malformed, carrying the line. */
  lemma MalformedTokenFailsLine(raw: string, j: nat)
    requires IsExonRecord(raw) && j < |ExonTokens(raw)|
    requires ' ' !in Strip(ExonTokens(raw)[j], Whitespace)
    ensures ProcessLine(raw) == Fail(Malformed(TrimRight(raw, Whitespace)))
  {
    var ts := ExonTokens(raw);
    ParseAttributeFailsIffNoSpace(ts[j]);
    LineDictFailsIffBadToken(ts);
  }

  /**
   * An exon line whose tokens all have a space: without a transcript_id token
   * it fails; otherwise it writes, under the value of its last transcript_id
   * token, the value of its last gene_id token (default "") and of its last
   * gene_name token (default "None").
   */
  lemma WellFormedExonLine(raw: string)
    requires IsExonRecord(raw)
    requires forall j :: 0 <= j < |ExonTokens(raw)| ==> ' ' in Strip(ExonTokens(raw)[j], Whitespace)
    ensures var ts := ExonTokens(raw);
            ProcessLine(raw) ==
              match LastValue(ts, TranscriptIdKey)
              case None => Fail(NoTranscriptId(TrimRight(raw, Whitespace)))
              case Some(t) => Write(t, Rec(OrElse(LastValue(ts, GeneIdKey), ""), OrElse(LastValue(ts, GeneNameKey), "None")))
  {
    var ts := ExonTokens(raw);
    forall j | 0 <= j < |ts| ensures ParseAttribute(ts[j]).Some? {
      ParseAttributeFailsIffNoSpace(ts[j]);
    }
    LineDictFailsIffBadToken(ts);
    LineDictKeepsLastValue(ts);
  }

  /** Every line that writes a record is an exon line whose last transcript_id token names the entry. */
  lemma WriteComesFromExonLine(raw: string)
    requires ProcessLine(raw).Write?
    ensures IsExonRecord(raw)
    ensures LastValue(ExonTokens(raw), TranscriptIdKey) == Some(ProcessLine(raw).transcriptId)
  {
    var ts := ExonTokens(raw);
    LineDictKeepsLastValue(ts);
  }

  // ---------------------------------------------------------------------------
  // The whole scan
  // ---------------------------------------------------------------------------

  /** A skipped line neither creates nor changes an entry. */
  lemma SkippedLineKeepsTable(lines: seq<string>, raw: string)
    requires ProcessLine(raw) == Skip
    ensures Extract(lines + [raw]) == Extract(lines)
  {
    EffectsSnoc(lines, raw);
    assert (Effects(lines) + [Skip])[..|lines|] == Effects(lines);
  }

  /** A line that writes replaces the entry of its own transcript id and leaves every other entry as it was. */
  lemma WriteChangesOnlyItsEntry(lines: seq<string>, raw: string)
    requires Extract(lines).Ok? && ProcessLine(raw).Write?
    ensures var m, t, r := Extract(lines).value, ProcessLine(raw).transcriptId, ProcessLine(raw).rec;
            && Extract(lines + [raw]).Ok?
            && var m' := Extract(lines + [raw]).value;
            && m'.Keys == m.Keys + {t}
            && m'[t] == r
            && forall k :: k in m && k != t ==> m'[k] == m[k]
  {
    EffectsSnoc(lines, raw);
    assert (Effects(lines) + [ProcessLine(raw)])[..|lines|] == Effects(lines);
  }

  /** A failing line ends the scan: whatever follows, the result is that line's error and no table. */
  lemma FailingLineIsFatal(lines: seq<string>, raw: string, more: seq<string>)
    requires Extract(lines).Ok? && ProcessLine(raw).Fail?
    ensures Extract(lines + [raw] + more) == Err(ProcessLine(raw).error)
  {
    var es := Effects(lines) + [ProcessLine(raw)];
    EffectsSnoc(lines, raw);
    assert es[..|lines|] == Effects(lines);
    RunErrSticky(es, Effects(more));
    assert Effects(lines + [raw] + more) == es + Effects(more);
  }

  /** Effect `i` writes a record for transcript `t`. */
  ghost predicate WritesAt(effects: seq<LineEffect>, i: int, t: string)
  {
    0 <= i < |effects| && effects[i].Write? && effects[i].transcriptId == t
  }

  /** Effect `i` is a failure and no effect before it is. */
  ghost predicate FirstFailureAt(effects: seq<LineEffect>, i: int)
  {
    && 0 <= i < |effects| && effects[i].Fail?
    && forall j :: 0 <= j < i ==> !effects[j].Fail?
  }

  /** The scan returns a table exactly when no line fails. */
  lemma {:induction false} RunOkIffNoFailure(effects: seq<LineEffect>)
    ensures Run(effects).Ok? <==> forall i :: 0 <= i < |effects| ==> !effects[i].Fail?
    decreases |effects|
  {
    if effects != [] {
      var n := |effects| - 1;
      var front := effects[..n];
      RunOkIffNoFailure(front);
      forall i | 0 <= i < n ensures front[i] == effects[i] {
      }
    }
  }

  /** When the scan fails, its error is the one of the first failing line. */
  lemma {:induction false} RunErrIsFirstFailure(effects: seq<LineEffect>)
    requires Run(effects).Err?
    ensures exists i :: FirstFailureAt(effects, i) && Run(effects) == Err(effects[i].error)
    decreases |effects|
  {
    var n := |effects| - 1;
    var front := effects[..n];
    forall i | 0 <= i < n ensures front[i] == effects[i] {
    }
    if Run(front).Err? {
      RunErrIsFirstFailure(front);
      var i :| FirstFailureAt(front, i) && Run(front) == Err(front[i].error);
      assert FirstFailureAt(effects, i);
    } else {
      RunOkIffNoFailure(front);
      assert FirstFailureAt(effects, n);
    }
  }

  /** Every entry of the table was written by some line. */
  lemma {:induction false} RunEntryWasWritten(effects: seq<LineEffect>, t: string)
    requires Run(effects).Ok? && t in Run(effects).value
    ensures exists i :: WritesAt(effects, i, t)
    decreases |effects|
  {
    var n := |effects| - 1;
    var front := effects[..n];
    if effects[n].Write? && effects[n].transcriptId == t {
      assert WritesAt(effects, n, t);
    } else {
      RunEntryWasWritten(front, t);
      var i :| WritesAt(front, i, t);
      assert WritesAt(effects, i, t);
    }
  }

  /** Every transcript id that some line writes has an entry in the table. */
  lemma {:induction false} RunWrittenHasEntry(effects: seq<LineEffect>, i: nat, t: string)
    requires Run(effects).Ok? && WritesAt(effects, i, t)
    ensures t in Run(effects).value
    decreases |effects|
  {
    var n := |effects| - 1;
    var front := effects[..n];
    if i < n {
      assert WritesAt(front, i, t);
      RunWrittenHasEntry(front, i, t);
    }
  }

  /** The table has an entry for `t` exactly when some line writes `t`. */
  lemma RunKeysAreWritten(effects: seq<LineEffect>)
    requires Run(effects).Ok?
    ensures forall t :: t in Run(effects).value <==> exists i :: WritesAt(effects, i, t)
  {
    forall t ensures t in Run(effects).value <==> exists i :: WritesAt(effects, i, t) {
      if t in Run(effects).value {
        RunEntryWasWritten(effects, t);
      }
      if exists i :: WritesAt(effects, i, t) {
        var i :| WritesAt(effects, i, t);
        RunWrittenHasEntry(effects, i, t);
      }
    }
  }

  /** Last write wins: the entry for `t` is the record of the last line that writes `t`. */
  lemma {:induction false} RunKeepsLastWrite(effects: seq<LineEffect>, i: nat, t: string)
    requires Run(effects).Ok?
    requires WritesAt(effects, i, t) && forall j :: i < j < |effects| ==> !WritesAt(effects, j, t)
    ensures t in Run(effects).value && Run(effects).value[t] == effects[i].rec
    decreases |effects|
  {
    var n := |effects| - 1;
    var front := effects[..n];
    if i < n {
      assert WritesAt(front, i, t);
      forall j | i < j < n ensures !WritesAt(front, j, t) {
        assert !WritesAt(effects, j, t);
      }
      RunKeepsLastWrite(front, i, t);
      assert !WritesAt(effects, n, t);
    }
  }

  /** Line `i` is an exon line whose last transcript_id token has the value `t`. */
  ghost predicate ExonLineFor(lines: seq<string>, i: int, t: string)
  {
    0 <= i < |lines| && IsExonRecord(lines[i]) && LastValue(ExonTokens(lines[i]), TranscriptIdKey) == Some(t)
  }

  /** Every key of the table is the transcript id of some exon line of the file. */
  lemma ExtractKeysFromExonLines(lines: seq<string>, t: string)
    requires Extract(lines).Ok? && t in Extract(lines).value
    ensures exists i :: ExonLineFor(lines, i, t)
  {
    var es := Effects(lines);
    RunEntryWasWritten(es, t);
    var i :| WritesAt(es, i, t);
    assert es[i] == ProcessLine(lines[i]);
    WriteComesFromExonLine(lines[i]);
    assert ExonLineFor(lines, i, t);
  }
}
