/**
 * The example GTF line given next to `gtf_to_attributes_dict`, worked through
 * the model: first for every line laid out like it, then for the example's
 * own values.
 */
module GtfExamples {
  import opened PyStr
  import opened SpankiUtils
  import opened GtfProperties

  /** The token `key "value"`. */
  function Quoted(key: string, value: string): string
  {
    key + " \"" + value + "\""
  }

  /** A character in neither the key, nor the value, nor the space and quotes is not in the token. */
  lemma QuotedAvoids(key: string, value: string, c: char)
    requires c !in key && c !in value && c != ' ' && c != '"'
    ensures c !in Quoted(key, value)
  {
  }

  /** A value that the example layout can carry unchanged: no space, quote, semicolon or tab. */
  predicate Word(v: string)
  {
    ' ' !in v && '"' !in v && ';' !in v && '\t' !in v
  }

  /** The pieces of the attribute field cut at "; "; the first keeps the field's leading space. */
  function AttributeParts(g: string, t: string, n: string, m: string, x: string): seq<string>
  {
    [" " + Quoted(GeneIdKey, g), Quoted(TranscriptIdKey, t), Quoted("exon_number", n), Quoted(GeneNameKey, m), Quoted("transcript_name", x)]
  }

  /**
   * An attribute field laid out like the example's:
   * ` gene_id "g"; transcript_id "t"; exon_number "n"; gene_name "m"; transcript_name "x";`
   */
  function AttributeField(g: string, t: string, n: string, m: string, x: string): string
  {
    Join(AttributeParts(g, t, n, m, x), AttributeSeparator) + ";"
  }

  /** The stripped tokens of that field: the leading space gone, the closing semicolon kept on the last. */
  function FieldTokens(g: string, t: string, n: string, m: string, x: string): seq<string>
  {
    [Quoted(GeneIdKey, g), Quoted(TranscriptIdKey, t), Quoted("exon_number", n), Quoted(GeneNameKey, m), Quoted("transcript_name", x) + ";"]
  }

  /** A token that starts and ends with a visible character is its own strip. */
  lemma StripFixes(t: string)
    requires t != [] && t[0] !in Whitespace && t[|t| - 1] !in Whitespace
    ensures Strip(t, Whitespace) == t
  {
    TrimLeftNoop(t, Whitespace);
    TrimRightNoop(t, Whitespace);
  }

  /** The attribute field cuts at "; " into its five pieces, the semicolon staying on the last. */
  lemma AttributeFieldParts(g: string, t: string, n: string, m: string, x: string)
    requires Word(g) && Word(t) && Word(n) && Word(m) && Word(x)
    ensures var ps := AttributeParts(g, t, n, m, x);
            Split(AttributeField(g, t, n, m, x), AttributeSeparator) == ps[..4] + [ps[4] + ";"]
  {
    var ps := AttributeParts(g, t, n, m, x);
    QuotedAvoids(GeneIdKey, g, ';');
    QuotedAvoids(TranscriptIdKey, t, ';');
    QuotedAvoids("exon_number", n, ';');
    QuotedAvoids(GeneNameKey, m, ';');
    QuotedAvoids("transcript_name", x, ';');
    SplitJoined(ps, AttributeSeparator, ";");
  }

  /** The attribute field's tokens are the five key-value tokens. */
  lemma AttributeFieldTokens(g: string, t: string, n: string, m: string, x: string)
    requires Word(g) && Word(t) && Word(n) && Word(m) && Word(x)
    ensures AttributeTokens(AttributeField(g, t, n, m, x)) == FieldTokens(g, t, n, m, x)
  {
    var ps := AttributeParts(g, t, n, m, x);
    var ts := FieldTokens(g, t, n, m, x);
    AttributeFieldParts(g, t, n, m, x);
    assert TrimLeft(ps[0], Whitespace) == ts[0] by {
      assert ps[0][1..] == ts[0];
      TrimLeftNoop(ts[0], Whitespace);
    }
    StripFixes(ts[0]);
    StripFixes(ts[1]);
    StripFixes(ts[2]);
    StripFixes(ts[3]);
    StripFixes(ts[4]);
  }

  /** The four quoted tokens read as their keys and values. */
  lemma FieldTokensParse(g: string, t: string, n: string, m: string, x: string)
    requires Word(g) && Word(t) && Word(n) && Word(m) && Word(x)
    ensures var ts := FieldTokens(g, t, n, m, x);
            && ParseAttribute(ts[0]) == Some((GeneIdKey, g))
            && ParseAttribute(ts[1]) == Some((TranscriptIdKey, t))
            && ParseAttribute(ts[2]) == Some(("exon_number", n))
            && ParseAttribute(ts[3]) == Some((GeneNameKey, m))
            && ParseAttribute(ts[4]).Some? && ParseAttribute(ts[4]).value.0 == "transcript_name"
  {
    ParseQuotedAttribute(GeneIdKey, g);
    ParseQuotedAttribute(TranscriptIdKey, t);
    ParseQuotedAttribute("exon_number", n);
    ParseQuotedAttribute(GeneNameKey, m);
    ClosingTokenParse(x);
  }

  /** The closing token, its value word ending in the field's semicolon, still reads with its key. */
  lemma ClosingTokenParse(x: string)
    requires Word(x)
    ensures var last := Quoted("transcript_name", x) + ";";
            ParseAttribute(last).Some? && ParseAttribute(last).value.0 == "transcript_name"
  {
    var last := Quoted("transcript_name", x) + ";";
    var w := "\"" + x + "\";";
    assert last == "transcript_name" + " " + w + [];
    assert ' ' !in w by {
      assert w == ['"'] + x + ['"', ';'];
    }
    StripFixes(last);
    ParseAttributeOfTwoWords(last, "transcript_name", w, []);
  }

  /** In tokens read as the example's are, the last binding of each of the three keys read is the one given. */
  lemma LastValuesOfFive(ts: seq<string>, g: string, t: string, m: string)
    requires |ts| == 5
    requires ParseAttribute(ts[0]) == Some((GeneIdKey, g))
    requires ParseAttribute(ts[1]) == Some((TranscriptIdKey, t))
    requires ParseAttribute(ts[2]).Some? && ParseAttribute(ts[2]).value.0 == "exon_number"
    requires ParseAttribute(ts[3]) == Some((GeneNameKey, m))
    requires ParseAttribute(ts[4]).Some? && ParseAttribute(ts[4]).value.0 == "transcript_name"
    ensures LastValue(ts, TranscriptIdKey) == Some(t)
    ensures LastValue(ts, GeneIdKey) == Some(g)
    ensures LastValue(ts, GeneNameKey) == Some(m)
  {
    var t4, t3, t2, t1 := ts[..4], ts[..3], ts[..2], ts[..1];
    assert t4[..3] == t3 && t3[..2] == t2 && t2[..1] == t1 && t1[..0] == [];
    assert LastValue(t1, GeneIdKey) == Some(g);
    assert LastValue(t2, TranscriptIdKey) == Some(t);
    assert LastValue(t2, GeneIdKey) == LastValue(t1, GeneIdKey);
    assert LastValue(t3, TranscriptIdKey) == LastValue(t2, TranscriptIdKey);
    assert LastValue(t3, GeneIdKey) == LastValue(t2, GeneIdKey);
    assert LastValue(t4, TranscriptIdKey) == LastValue(t3, TranscriptIdKey);
    assert LastValue(t4, GeneIdKey) == LastValue(t3, GeneIdKey);
    assert LastValue(t4, GeneNameKey) == Some(m);
  }

  /** A line laid out like the example is an exon line whose tokens are the five key-value tokens. */
  lemma ExampleLayoutTokens(front: seq<string>, g: string, t: string, n: string, m: string, x: string)
    requires |front| == 8 && front[2] == Exon && forall k :: 0 <= k < 8 ==> '\t' !in front[k]
    requires Word(g) && Word(t) && Word(n) && Word(m) && Word(x)
    ensures var raw := Join(front + [AttributeField(g, t, n, m, x)], Tab);
            IsExonRecord(raw) && ExonTokens(raw) == FieldTokens(g, t, n, m, x)
  {
    var attrs := AttributeField(g, t, n, m, x);
    var fields := front + [attrs];
    var ps := AttributeParts(g, t, n, m, x);
    QuotedAvoids(GeneIdKey, g, '\t');
    QuotedAvoids(TranscriptIdKey, t, '\t');
    QuotedAvoids("exon_number", n, '\t');
    QuotedAvoids(GeneNameKey, m, '\t');
    QuotedAvoids("transcript_name", x, '\t');
    JoinAvoids(ps, AttributeSeparator, '\t');
    forall k | 0 <= k < |fields| ensures '\t' !in fields[k] {
      if k < 8 {
        assert fields[k] == front[k];
      }
    }
    FieldsOfJoin(fields);
    AttributeFieldTokens(g, t, n, m, x);
  }

  /** An exon line whose five tokens read as the example's writes its transcript id with its gene id and name. */
  lemma FiveTokenExonLine(raw: string, g: string, t: string, m: string)
    requires IsExonRecord(raw) && |ExonTokens(raw)| == 5
    requires var ts := ExonTokens(raw);
             && ParseAttribute(ts[0]) == Some((GeneIdKey, g))
             && ParseAttribute(ts[1]) == Some((TranscriptIdKey, t))
             && ParseAttribute(ts[2]).Some? && ParseAttribute(ts[2]).value.0 == "exon_number"
             && ParseAttribute(ts[3]) == Some((GeneNameKey, m))
             && ParseAttribute(ts[4]).Some? && ParseAttribute(ts[4]).value.0 == "transcript_name"
    ensures ProcessLine(raw) == Write(t, Rec(g, m))
  {
    var ts := ExonTokens(raw);
    forall j | 0 <= j < |ts| ensures ' ' in Strip(ts[j], Whitespace) {
      ParseAttributeFailsIffNoSpace(ts[j]);
    }
    WellFormedExonLine(raw);
    LastValuesOfFive(ts, g, t, m);
  }

  /**
   * Every exon line laid out like the example writes its transcript id with
   * its gene id and gene name, the exon number and transcript name playing no part.
   */
  lemma ExampleLayoutLine(front: seq<string>, g: string, t: string, n: string, m: string, x: string)
    requires |front| == 8 && front[2] == Exon && forall k :: 0 <= k < 8 ==> '\t' !in front[k]
    requires Word(g) && Word(t) && Word(n) && Word(m) && Word(x)
    ensures ProcessLine(Join(front + [AttributeField(g, t, n, m, x)], Tab)) == Write(t, Rec(g, m))
  {
    ExampleLayoutTokens(front, g, t, n, m, x);
    FieldTokensParse(g, t, n, m, x);
    FiveTokenExonLine(Join(front + [AttributeField(g, t, n, m, x)], Tab), g, t, m);
  }

  /** The eight plain fields of the example line. */
  const ExampleFront: seq<string> := ["chr3R", "protein_coding", "exon", "380", "1913", ".", "+", "."]

  /** The example line itself. */
  const ExampleLine: string := Join(ExampleFront + [AttributeField("FBgn0037213", "FBtr0078962", "1", "CG12581", "CG12581-RA")], Tab)

  /** The example line writes transcript FBtr0078962 with gene id FBgn0037213 and gene name CG12581. */
  lemma ExampleLineRecord()
    ensures ProcessLine(ExampleLine) == Write("FBtr0078962", Rec("FBgn0037213", "CG12581"))
  {
    ExampleLayoutLine(ExampleFront, "FBgn0037213", "FBtr0078962", "1", "CG12581", "CG12581-RA");
  }

  /** A file holding just the example line yields exactly that one entry. */
  lemma ExampleFile()
    ensures Extract([ExampleLine]) == Ok(map["FBtr0078962" := Rec("FBgn0037213", "CG12581")])
  {
    ExampleLineRecord();
    var es := Effects([ExampleLine]);
    assert es == [ProcessLine(ExampleLine)];
    assert es[..0] == [] && Run(es[..0]) == Ok(map[]);
    assert Run(es) == Apply(map[], ProcessLine(ExampleLine));
  }
}
