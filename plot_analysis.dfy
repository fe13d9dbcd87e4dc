/** Result-file bookkeeping of the summary script: the name the experiment
    driver gives each per-layer result file, and how the summary recovers the
    problem id, input type and layer from a directory listing of such files. */
module PlotAnalysis {
  import opened PyStr

  const PklSuffix := ".pkl"
  const Separator := '_'
  const Unknown := "Unknown"

  /** The contents of one result file. */
  datatype StoredResult = StoredResult(tokens: seq<string>, attentionEntropy: real, keywordAttentionRatio: real)

  /** Problem id, input type and layer as read off a file name. */
  datatype NameFields = NameFields(problemId: string, inputType: string, layer: string)

  /** One row of the summary table. */
  datatype Record = Record(
    problemId: string,
    inputType: string,
    layer: string,
    attentionEntropy: real,
    keywordAttentionRatio: real)

  /** The name under which the driver saves the analysis of problem `pid`, the
      phrasing `inputType` and the 0-based `layer`; layers are numbered from 1 in
      the name. */
  function ResultFileName(pid: nat, inputType: string, layer: nat): string {
    "problem_" + DecimalString(pid) + "_" + inputType + "_layer_" + DecimalString(layer + 1) + "_analysis.pkl"
  }

  /** The name with `rstrip(".pkl")` applied: every trailing '.', 'p', 'k' or 'l'
      is dropped, not just the literal suffix. */
  function Stem(filename: string): string {
    RStrip(filename, PklSuffix)
  }

  /** Fields 1, 2 and 4 of the stem split on '_', or "Unknown" three times when
      the stem has fewer than five fields. With at least four separators the
      fields read off are free of separators. */
  function ParseName(filename: string): (fields: NameFields)
    ensures CountChar(Stem(filename), Separator) < 4 ==> fields == NameFields(Unknown, Unknown, Unknown)
    ensures CountChar(Stem(filename), Separator) >= 4 ==>
              Separator !in fields.problemId && Separator !in fields.inputType && Separator !in fields.layer
  {
    var parts := Split(Stem(filename), Separator);
    if |parts| >= 5 then NameFields(parts[1], parts[2], parts[4])
    else NameFields(Unknown, Unknown, Unknown)
  }

  /** `stem` is `head_problemId_inputType_mid_layer` followed by `tail`, where
      `head` and `mid` hold no separator and `tail` is empty or starts with one. */
  predicate FieldsAt(stem: string, f: NameFields, head: string, mid: string, tail: string) {
    stem == head + [Separator] + f.problemId + [Separator] + f.inputType
            + [Separator] + mid + [Separator] + f.layer + tail
    && Separator !in head && Separator !in mid
    && (tail == [] || tail[0] == Separator)
  }

  /** With at least four separators in the stem, the problem id, input type and
      layer are the second, third and fifth '_'-separated fields of the stem. */
  lemma ParseNamePositions(filename: string)
    requires CountChar(Stem(filename), Separator) >= 4
    ensures exists head, mid, tail :: FieldsAt(Stem(filename), ParseName(filename), head, mid, tail)
  {
    var stem := Stem(filename);
    var parts := Split(stem, Separator);
    var tail := JoinTail(parts, Separator);
    JoinFirstFive(parts, Separator);
    var f := NameFields(parts[1], parts[2], parts[4]);
    assert ParseName(filename) == f;
    assert FieldsAt(stem, f, parts[0], parts[3], tail);
  }

  /** What follows the fifth piece in the join: nothing, or the separator and
      the join of the remaining pieces. */
  function JoinTail(parts: seq<string>, sep: char): string
    requires |parts| >= 5
  {
    if |parts| == 5 then [] else [sep] + Join(parts[5..], sep)
  }

  /** The join of five or more pieces, written out up to the fifth. */
  lemma JoinFirstFive(parts: seq<string>, sep: char)
    requires |parts| >= 5
    ensures Join(parts, sep) == parts[0] + [sep] + parts[1] + [sep] + parts[2] + [sep] + parts[3]
                                + [sep] + parts[4] + JoinTail(parts, sep)
  {
    var tail := JoinTail(parts, sep);
    var j4 := parts[4] + tail;
    assert Join(parts[4..], sep) == j4 by {
      if |parts| == 5 {
        assert parts[4..] == [parts[4]];
      } else {
        JoinFrom(parts, 4, sep);
      }
    }
    JoinFrom(parts, 3, sep);
    JoinFrom(parts, 2, sep);
    JoinFrom(parts, 1, sep);
    JoinFrom(parts, 0, sep);
    assert parts[0..] == parts;
    Flatten(parts[0], parts[1], parts[2], parts[3], parts[4], tail, [sep]);
  }

  /** Regrouping a right-nested concatenation of nine pieces from the left. */
  lemma Flatten(p0: string, p1: string, p2: string, p3: string, p4: string, t: string, s: string)
    ensures p0 + s + (p1 + s + (p2 + s + (p3 + s + (p4 + t))))
            == p0 + s + p1 + s + p2 + s + p3 + s + p4 + t
  {
  }

  /** A join of at least two pieces is the first piece, the separator and the
      join of the rest. */
  lemma JoinFrom(parts: seq<string>, i: nat, sep: char)
    requires i + 1 < |parts|
    ensures Join(parts[i..], sep) == parts[i] + [sep] + Join(parts[i + 1..], sep)
  {
  }

  /** `rstrip(".pkl")` is a character-set strip: a name ending in "model.pkl"
      loses "l.pkl", not ".pkl". */
  lemma StemEatsIntoName(stem: string)
    ensures Stem(stem + "model.pkl") == stem + "mode"
  {
    assert (stem + "mode")[|stem + "mode"| - 1] == 'e';
    assert stem + "model.pkl" == (stem + "mode") + "l.pkl";
    RStripSkipsTail(stem + "mode", "l.pkl", PklSuffix);
  }

  /** A stem ending in a character outside {'.', 'p', 'k', 'l'} is recovered
      exactly from the stem followed by ".pkl". */
  lemma StemOfPklName(stem: string)
    requires stem != [] && stem[|stem| - 1] !in PklSuffix
    ensures Stem(stem + PklSuffix) == stem
  {
    RStripSkipsTail(stem, PklSuffix, PklSuffix);
  }

  /** Joining the driver's six fields with '_' gives its stem. */
  lemma JoinResultFields(p: string, inputType: string, l: string)
    ensures Join(["problem", p, inputType, "layer", l, "analysis"], Separator)
            == "problem_" + p + "_" + inputType + "_layer_" + l + "_analysis"
  {
    var sep := Separator;
    var parts := ["problem", p, inputType, "layer", l, "analysis"];
    var j4 := l + [sep] + "analysis";
    var j3 := "layer" + [sep] + j4;
    var j2 := inputType + [sep] + j3;
    var j1 := p + [sep] + j2;
    assert Join(parts[4..], sep) == j4 by {
      assert parts[4..] == [l, "analysis"];
    }
    assert Join(parts[3..], sep) == j3 by {
      assert parts[3..][1..] == parts[4..];
    }
    assert Join(parts[2..], sep) == j2 by {
      assert parts[2..][1..] == parts[3..];
    }
    assert Join(parts[1..], sep) == j1 by {
      assert parts[1..][1..] == parts[2..];
    }
    assert Join(parts, sep) == "problem" + [sep] + j1;
  }

  /** The driver's stem, with separator-free fields, splits into its six fields. */
  lemma SplitResultStem(p: string, inputType: string, l: string)
    requires Separator !in p && Separator !in inputType && Separator !in l
    ensures Split("problem_" + p + "_" + inputType + "_layer_" + l + "_analysis", Separator)
            == ["problem", p, inputType, "layer", l, "analysis"]
  {
    JoinResultFields(p, inputType, l);
    SplitJoin(["problem", p, inputType, "layer", l, "analysis"], Separator);
  }

  /** Round trip: parsing the driver's file name gives back the problem id, the
      input type and the 1-based layer number as text. The name ends in
      "analysis.pkl", and the 's' of "analysis" stops the strip. */
  lemma ParseResultFileName(pid: nat, inputType: string, layer: nat)
    requires Separator !in inputType
    ensures ParseName(ResultFileName(pid, inputType, layer))
            == NameFields(DecimalString(pid), inputType, DecimalString(layer + 1))
    ensures DigitsValue(ParseName(ResultFileName(pid, inputType, layer)).problemId) == pid
    ensures DigitsValue(ParseName(ResultFileName(pid, inputType, layer)).layer) == layer + 1
  {
    var p, l := DecimalString(pid), DecimalString(layer + 1);
    assert ParseName(ResultFileName(pid, inputType, layer)) == NameFields(p, inputType, l) by {
      var stem := "problem_" + p + "_" + inputType + "_layer_" + l + "_analysis";
      assert ResultFileName(pid, inputType, layer) == stem + PklSuffix;
      assert stem[|stem| - 1] == 's';
      StemOfPklName(stem);
      assert Separator !in p && Separator !in l;
      SplitResultStem(p, inputType, l);
    }
    DecimalStringValue(pid);
    DecimalStringValue(layer + 1);
  }

  /** The listed names ending in ".pkl", in listing order. */
  function PklNames(listing: seq<string>): seq<string> {
    if listing == [] then []
    else
      var name := listing[|listing| - 1];
      PklNames(listing[..|listing| - 1]) + (if EndsWith(name, PklSuffix) then [name] else [])
  }

  /** A name is kept exactly when it is listed and ends in ".pkl". */
  lemma {:induction false} PklNamesSelects(listing: seq<string>)
    ensures forall name :: name in PklNames(listing) <==> name in listing && EndsWith(name, PklSuffix)
  {
    if listing != [] {
      var n := |listing| - 1;
      PklNamesSelects(listing[..n]);
      assert listing == listing[..n] + [listing[n]];
    }
  }

  /** Filtering keeps the listing's order: the kept names of a listing split in
      two are those of the first part followed by those of the second. */
  lemma {:induction false} PklNamesKeepsOrder(first: seq<string>, second: seq<string>)
    ensures PklNames(first + second) == PklNames(first) + PklNames(second)
    decreases |second|
  {
    if second != [] {
      var n := |second| - 1;
      assert (first + second)[..|first + second| - 1] == first + second[..n];
      PklNamesKeepsOrder(first, second[..n]);
    } else {
      assert first + second == first;
    }
  }

  /** The summary row for one result file. */
  function ToRecord(filename: string, data: StoredResult): Record {
    var fields := ParseName(filename);
    Record(fields.problemId, fields.inputType, fields.layer, data.attentionEntropy, data.keywordAttentionRatio)
  }

  /** One pass over the directory listing: every name ending in ".pkl" gives one
      row, in listing order, built from its name and from what `load` reads from
      that file; other names are skipped. */
  method CollectData(listing: seq<string>, load: string -> StoredResult) returns (records: seq<Record>)
    ensures |records| == |PklNames(listing)|
    ensures forall j :: 0 <= j < |records| ==>
              records[j] == ToRecord(PklNames(listing)[j], load(PklNames(listing)[j]))
  {
    records := [];
    for i := 0 to |listing|
      invariant |records| == |PklNames(listing[..i])|
      invariant forall j :: 0 <= j < |records| ==>
                  records[j] == ToRecord(PklNames(listing[..i])[j], load(PklNames(listing[..i])[j]))
    {
      assert listing[..i + 1][..i] == listing[..i];
      var filename := listing[i];
      if EndsWith(filename, PklSuffix) {
        var data := load(filename);
        var fields := ParseName(filename);
        var record := Record(fields.problemId, fields.inputType, fields.layer,
                             data.attentionEntropy, data.keywordAttentionRatio);
        records := records + [record];
      }
    }
    assert listing[..|listing|] == listing;
  }
}
