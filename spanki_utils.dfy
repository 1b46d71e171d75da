/**
 * The GTF attribute extractor `gtf_to_attributes_dict` of Spanki's
 * `spanki_utils.py`. It reads GTF annotation lines and builds a table from
 * `transcript_id` to the pair (`gene_id`, `gene_name`) of the exon lines.
 *
 * The file is given as the sequence of its lines. The source's fatal paths
 * (printing the line and quitting, or an uncaught IndexError/KeyError) become
 * `Err` results; no table is returned on any of them.
 */
module SpankiUtils {
  import opened PyStr

  datatype Option<T> = None | Some(value: T)

  /** The record kept per transcript: both fields are always set. */
  datatype Rec = Rec(geneId: string, geneName: string)

  /** The ways one run ends without a table. Each carries the right-stripped line. */
  datatype Error =
    | Malformed(line: string)       // an attribute token without a space: "GTF parsing error"
    | FieldMissing(line: string)    // fewer tab fields than values[2] or values[8] needs: IndexError
    | NoTranscriptId(line: string)  // an exon line without a transcript_id attribute: KeyError

  datatype Result<T> = Ok(value: T) | Err(error: Error)

  /** What one input line does to the table. */
  datatype LineEffect = Skip | Write(transcriptId: string, rec: Rec) | Fail(error: Error)

  const Exon: string := "exon"
  const Tab: string := "\t"
  const AttributeSeparator: string := "; "
  const Quote: set<char> := {'"'}
  const TranscriptIdKey: string := "transcript_id"
  const GeneIdKey: string := "gene_id"
  const GeneNameKey: string := "gene_name"
  const DefaultGeneId: string := ""
  const DefaultGeneName: string := "None"

  /** The tab-separated fields of a line after its trailing whitespace is removed. */
  function Fields(raw: string): seq<string>
  {
    Split(TrimRight(raw, Whitespace), Tab)
  }

  /** The attribute field cut at every "; ", each token stripped of surrounding whitespace. */
  function AttributeTokens(field: string): seq<string>
  {
    var parts := Split(field, AttributeSeparator);
    seq(|parts|, k requires 0 <= k < |parts| => Strip(parts[k], Whitespace))
  }

  /**
   * One attribute token read as a key and a value: the token, stripped again,
   * is cut at every single space; the first piece is the key and the second
   * piece, without leading and trailing double quotes, is the value. A token
   * with only one piece has no value.
   */
  function ParseAttribute(token: string): Option<(string, string)>
  {
    var attr := Split(Strip(token, Whitespace), " ");
    if |attr| < 2 then None else Some((attr[0], Strip(attr[1], Quote)))
  }

  /** The per-line attribute dictionary: tokens bind in order, later ones overwriting earlier ones. */
  function LineDict(tokens: seq<string>): Option<map<string, string>>
    decreases |tokens|
  {
    if tokens == [] then Some(map[])
    else
      match LineDict(tokens[..|tokens| - 1])
      case None => None
      case Some(d) =>
        match ParseAttribute(tokens[|tokens| - 1])
        case None => None
        case Some(kv) => Some(d[kv.0 := kv.1])
  }

  /** The value bound to `key` in `d`, if any. */
  function Get(d: map<string, string>, key: string): Option<string>
  {
    if key in d then Some(d[key]) else None
  }

  /** The value held by `o`, or `default` when there is none. */
  function OrElse(o: Option<string>, default: string): string
  {
    if o.Some? then o.value else default
  }

  /** The effect of one line of the file on the table. */
  function ProcessLine(raw: string): LineEffect
  {
    var line := TrimRight(raw, Whitespace);
    FieldsEffect(line, Split(line, Tab))
  }

  /** The effect of a right-stripped line, given its tab-separated fields. */
  function FieldsEffect(line: string, values: seq<string>): LineEffect
  {
    if |values| <= 1 then Skip
    else if |values| < 3 then Fail(FieldMissing(line))
    else if values[2] != Exon then Skip
    else if |values| < 9 then Fail(FieldMissing(line))
    else ExonEffect(line, LineDict(AttributeTokens(values[8])))
  }

  /** The effect of an exon line, given its attribute dictionary (or `None` for a malformed token). */
  function ExonEffect(line: string, linedict: Option<map<string, string>>): LineEffect
  {
    match linedict
    case None => Fail(Malformed(line))
    case Some(d) =>
      if TranscriptIdKey !in d then Fail(NoTranscriptId(line))
      else Write(d[TranscriptIdKey], Rec(OrElse(Get(d, GeneIdKey), DefaultGeneId), OrElse(Get(d, GeneNameKey), DefaultGeneName)))
  }

  /** The table after one more line, or the error that line raises. */
  function Apply(m: map<string, Rec>, effect: LineEffect): Result<map<string, Rec>>
  {
    match effect
    case Skip => Ok(m)
    case Write(t, r) => Ok(m[t := r])
    case Fail(e) => Err(e)
  }

  /** The effect of each line of the file, in file order. */
  function Effects(lines: seq<string>): seq<LineEffect>
  {
    seq(|lines|, i requires 0 <= i < |lines| => ProcessLine(lines[i]))
  }

  /** The table built by applying `effects` in order from the empty table; the first failure ends it. */
  function Run(effects: seq<LineEffect>): Result<map<string, Rec>>
    decreases |effects|
  {
    if effects == [] then Ok(map[])
    else
      match Run(effects[..|effects| - 1])
      case Err(e) => Err(e)
      case Ok(m) => Apply(m, effects[|effects| - 1])
  }

  /** The outcome of reading `lines` from the top, one line at a time. */
  function Extract(lines: seq<string>): Result<map<string, Rec>>
  {
    Run(Effects(lines))
  }

  /** Once a prefix of the effects has failed, no later effect changes the outcome. */
  lemma {:induction false} RunErrSticky(effects: seq<LineEffect>, more: seq<LineEffect>)
    requires Run(effects).Err?
    ensures Run(effects + more) == Run(effects)
    decreases |more|
  {
    if more == [] {
      assert effects + more == effects;
    } else {
      var front := more[..|more| - 1];
      RunErrSticky(effects, front);
      assert (effects + more)[..|effects + more| - 1] == effects + front;
    }
  }

  /**
   * `gtf_to_attributes_dict`: scan the lines in order and write each exon
   * line's record under its transcript id, replacing any earlier record for
   * that id. The first fatal line ends the scan and no table is returned.
   */
  method GtfToAttributesDict(lines: seq<string>) returns (result: Result<map<string, Rec>>)
    ensures result == Extract(lines)
  {
    var attrdict: map<string, Rec> := map[];
    var i := 0;
    assert lines[..i] == [];
    while i < |lines|
      invariant 0 <= i <= |lines|
      invariant Extract(lines[..i]) == Ok(attrdict)
    {
      var effect := ReadLine(lines[i]);
      ExtractStep(lines, i, attrdict);
      match effect {
        case Skip =>
        case Write(t, r) =>
          attrdict := attrdict[t := r];
        case Fail(e) =>
          ExtractErrPrefix(lines, i + 1);
          return Err(e);
      }
      i := i + 1;
    }
    assert lines[..i] == lines;
    result := Ok(attrdict);
  }

  /**
   * The body of the scan for one line: right-strip it, split it at tabs,
   * and for an exon line build the attribute dictionary and pick the
   * transcript id, the gene id (default "") and the gene name (default "None").
   */
  method ReadLine(raw: string) returns (effect: LineEffect)
    ensures effect == ProcessLine(raw)
  {
    var line := TrimRight(raw, Whitespace);
    var values := Split(line, Tab);
    if |values| <= 1 {
      return Skip;
    }
    if |values| < 3 {
      return Fail(FieldMissing(line));
    }
    if values[2] != Exon {
      return Skip;
    }
    if |values| < 9 {
      return Fail(FieldMissing(line));
    }
    var linedict := ReadAttributes(AttributeTokens(values[8]));
    if linedict.None? {
      return Fail(Malformed(line));
    }
    var d := linedict.value;
    if TranscriptIdKey !in d {
      return Fail(NoTranscriptId(line));
    }
    var geneId := OrElse(Get(d, GeneIdKey), DefaultGeneId);
    var geneName := OrElse(Get(d, GeneNameKey), DefaultGeneName);
    return Write(d[TranscriptIdKey], Rec(geneId, geneName));
  }

  /**
   * The inner loop of `gtf_to_attributes_dict`: bind each token's key to its
   * value in order; `None` when a token has no value (the source prints the
   * line and quits there).
   */
  method ReadAttributes(attributes: seq<string>) returns (linedict: Option<map<string, string>>)
    ensures linedict == LineDict(attributes)
  {
    var d: map<string, string> := map[];
    var j := 0;
    while j < |attributes|
      invariant 0 <= j <= |attributes|
      invariant LineDict(attributes[..j]) == Some(d)
    {
      LineDictStep(attributes, j);
      var attr := Split(Strip(attributes[j], Whitespace), " ");
      if |attr| < 2 {
        LineDictNoneIsFinal(attributes, j + 1);
        return None;
      }
      d := d[attr[0] := Strip(attr[1], Quote)];
      j := j + 1;
    }
    assert attributes[..j] == attributes;
    return Some(d);
  }

  /** The effects of the file with one more line at its end. */
  lemma EffectsSnoc(lines: seq<string>, raw: string)
    ensures Effects(lines + [raw]) == Effects(lines) + [ProcessLine(raw)]
  {
  }

  /** Reading one more line applies that line's effect to the table read so far. */
  lemma ExtractStep(lines: seq<string>, i: nat, m: map<string, Rec>)
    requires i < |lines| && Extract(lines[..i]) == Ok(m)
    ensures Extract(lines[..i + 1]) == Apply(m, ProcessLine(lines[i]))
  {
    assert lines[..i + 1] == lines[..i] + [lines[i]];
    EffectsSnoc(lines[..i], lines[i]);
    assert (Effects(lines[..i]) + [ProcessLine(lines[i])])[..i] == Effects(lines[..i]);
  }

  /** Reading one more token binds its key to its value, or ends the line's dictionary. */
  lemma LineDictStep(tokens: seq<string>, j: nat)
    requires j < |tokens|
    ensures LineDict(tokens[..j + 1]) == match LineDict(tokens[..j])
                                         case None => None
                                         case Some(d) =>
                                           match ParseAttribute(tokens[j])
                                           case None => None
                                           case Some(kv) => Some(d[kv.0 := kv.1])
  {
    assert tokens[..j + 1][..j] == tokens[..j];
  }

  /** A failed prefix of the file decides the outcome of the whole file. */
  lemma ExtractErrPrefix(lines: seq<string>, n: nat)
    requires n <= |lines| && Extract(lines[..n]).Err?
    ensures Extract(lines) == Extract(lines[..n])
  {
    var es := Effects(lines);
    assert Effects(lines[..n]) == es[..n];
    RunErrSticky(es[..n], es[n..]);
    assert es[..n] + es[n..] == es;
  }

  /** Once a prefix of the tokens has no dictionary, neither has any longer prefix. */
  lemma {:induction false} LineDictNoneIsFinal(tokens: seq<string>, n: nat)
    requires n <= |tokens| && LineDict(tokens[..n]) == None
    ensures LineDict(tokens) == None
    decreases |tokens| - n
  {
    if n < |tokens| {
      assert tokens[..n + 1][..n] == tokens[..n];
      LineDictNoneIsFinal(tokens, n + 1);
    } else {
      assert tokens[..n] == tokens;
    }
  }
}
