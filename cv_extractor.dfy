/** The extractor object (`CVExtractor`) and its run over a CV folder
    (`process_cv_folder`) and its export (`save_to_csv`). The object keeps
    the Run Result in its field `extractionResults`, which `ProcessCvFolder`
    appends to and `SaveToCsv` reads.

    The file system is a parameter: whether the folder exists, and the names
    the folder lists, in listing order. The run is given its two per-file
    collaborators as functions of the file name: `extractText`
    (`extract_text_from_file`; `Dispatched` builds it from the readers of
    `FileDispatch`) and `extractRecord` (`extract_personal_data`, taking the
    CV text and the file name; `ServiceExtractor` builds it from the
    completion service and the JSON parser). */
module CvExtractorModel {
  import opened CvValues
  import opened PyStr
  import opened FileDispatch
  import opened ResponseParsing
  import opened CsvExport

  /** What one file contributes to the Run Result: nothing when no text came
      out (`if not cv_text`), nothing when the extractor gave no record or an
      empty one (`if personal_data`), and otherwise that record. */
  function FileRecord(name: string, extractText: string -> Option<string>,
                      extractRecord: (string, string) -> Option<Record>): (r: Option<Record>)
    ensures r.Some? <==> && extractText(name).Some? && extractText(name).value != []
                         && extractRecord(extractText(name).value, name).Some?
                         && extractRecord(extractText(name).value, name).value != map[]
    ensures r.Some? ==> r == extractRecord(extractText(name).value, name)
  {
    var text := extractText(name);
    if text.None? || text.value == [] then None
    else
      match extractRecord(text.value, name)
      case None => None
      case Some(rec) => if rec == map[] then None else Some(rec)
  }

  /** The per-file step of a run, as a function of the file name: a file
      contributes only the extractor's non-empty record for its text. */
  function PerFile(extractText: string -> Option<string>,
                   extractRecord: (string, string) -> Option<Record>): (step: string -> Option<Record>)
    ensures forall name :: step(name).Some? ==>
              && extractText(name).Some?
              && step(name) == extractRecord(extractText(name).value, name)
              && step(name).value != map[]
  {
    name => FileRecord(name, extractText, extractRecord)
  }

  /** `extract_text_from_file` over the readers `read`: text comes only from
      a supported file and is never blank. */
  function Dispatched(read: (Format, string) -> Option<string>): (extractText: string -> Option<string>)
    ensures forall name :: extractText(name).Some? ==>
              Classify(name).Some? && !AllSpace(extractText(name).value)
  {
    name => ExtractText(name, read)
  }

  /** The record extractor of the pipeline: the completion service
      `respond` and the JSON parser `parse` behind `extract_personal_data`.
      Every record it gives names the file it was asked about. */
  function ServiceExtractor(respond: string -> string, parse: string -> Option<Record>): (extractRecord: (string, string) -> Option<Record>)
    ensures forall text, file :: extractRecord(text, file).Some? ==>
              "filename" in extractRecord(text, file).value && extractRecord(text, file).value["filename"] == JString(file)
  {
    (text, file) => ServiceRecord(respond, parse, text, file)
  }

  /** The step of a file is that file's contribution. */
  lemma PerFileApplied(extractText: string -> Option<string>,
                       extractRecord: (string, string) -> Option<Record>, name: string)
    ensures PerFile(extractText, extractRecord)(name) == FileRecord(name, extractText, extractRecord)
  {
  }

  /** The records a run over `files` appends, in file order, when `step` is
      what each file contributes. */
  function Harvest(files: seq<string>, step: string -> Option<Record>): (r: seq<Record>)
    ensures |r| <= |files|
  {
    if files == [] then []
    else
      var init := Harvest(files[..|files| - 1], step);
      match step(files[|files| - 1])
      case None => init
      case Some(rec) => init + [rec]
  }

  /** The positions in `files` of the files that contribute a record, in
      ascending order. */
  function KeptIndices(files: seq<string>, step: string -> Option<Record>): seq<nat>
  {
    if files == [] then []
    else
      var n := |files| - 1;
      var init := KeptIndices(files[..n], step);
      if step(files[n]).Some? then init + [n] else init
  }

  class CvExtractor {
    /** The Run Result: `self.extraction_results`. */
    var extractionResults: seq<Record>

    /** A fresh extractor has an empty Run Result. */
    constructor ()
      ensures extractionResults == []
    {
      extractionResults := [];
    }

    /** `process_cv_folder`: a missing folder, or one where no file matches a
        supported extension, leaves the Run Result alone and returns an empty
        list; otherwise the records of the collected files are appended in
        file order, and the whole Run Result is returned. */
    method ProcessCvFolder(folderExists: bool, entries: seq<string>, order: seq<string>,
                           extractText: string -> Option<string>,
                           extractRecord: (string, string) -> Option<Record>)
      returns (results: seq<Record>)
      requires EnumeratesOnce(order, SupportedExtensions)
      modifies this
      ensures var files := CvFiles(entries, order);
              if !folderExists || files == [] then
                extractionResults == old(extractionResults) && results == []
              else
                extractionResults == old(extractionResults) + Harvest(files, PerFile(extractText, extractRecord))
                && results == extractionResults
    {
      if !folderExists {
        return [];
      }
      var cvFiles := GlobCvFiles(entries, order);
      if cvFiles == [] {
        return [];
      }
      ProcessFiles(cvFiles, extractText, extractRecord);
      results := extractionResults;
    }

    /** The loop of `process_cv_folder` over the collected files: each file
        whose text is non-empty and whose extractor gives a non-empty record
        appends that record, in file order; nothing else changes. */
    method ProcessFiles(cvFiles: seq<string>, extractText: string -> Option<string>,
                        extractRecord: (string, string) -> Option<Record>)
      modifies this
      ensures extractionResults == old(extractionResults) + Harvest(cvFiles, PerFile(extractText, extractRecord))
    {
      ghost var step := PerFile(extractText, extractRecord);
      var idx := 0;
      while idx < |cvFiles|
        invariant 0 <= idx <= |cvFiles|
        invariant extractionResults == old(extractionResults) + Harvest(cvFiles[..idx], step)
      {
        var cvFile := cvFiles[idx];
        var cvText := extractText(cvFile);
        if cvText.None? || cvText.value == [] {
          HarvestSkip(cvFiles, idx, extractText, extractRecord);
          idx := idx + 1;
          continue;
        }
        var personalData := extractRecord(cvText.value, cvFile);
        if personalData.Some? && personalData.value != map[] {
          HarvestKeep(old(extractionResults), cvFiles, idx, extractText, extractRecord, cvText.value, personalData.value);
          extractionResults := extractionResults + [personalData.value];
        } else {
          HarvestSkip(cvFiles, idx, extractText, extractRecord);
        }
        idx := idx + 1;
      }
      assert cvFiles[..|cvFiles|] == cvFiles;
    }

    /** `save_to_csv`: with an empty Run Result, or an output file that
        cannot be opened (`canOpen` false), nothing is written and the answer
        is false; otherwise the header holds the thirteen columns and one row
        per record follows, in Run Result order. The Run Result is not
        changed. */
    method SaveToCsv(canOpen: bool) returns (ok: bool, header: seq<string>, rows: seq<Row>)
      ensures ok <==> extractionResults != [] && canOpen
      ensures ok ==> header == Fieldnames && rows == ExportRows(extractionResults)
      ensures !ok ==> header == [] && rows == []
    {
      if extractionResults == [] || !canOpen {
        return false, [], [];
      }
      header := Fieldnames;
      rows := [];
      var i := 0;
      while i < |extractionResults|
        invariant 0 <= i <= |extractionResults|
        invariant |rows| == i
        invariant forall j :: 0 <= j < i ==> rows[j] == ProjectRow(extractionResults[j])
      {
        rows := rows + [ProjectRow(extractionResults[i])];
        i := i + 1;
      }
      ok := true;
    }
  }

  // ---------------------------------------------------------------------
  // The records of a run

  /** The kept positions are in range, ascending, and are exactly the
      positions of the files that contribute a record. */
  lemma {:induction false} KeptIndicesSpec(files: seq<string>, step: string -> Option<Record>)
    ensures var r := KeptIndices(files, step);
            && (forall k :: 0 <= k < |r| ==> r[k] < |files| && step(files[r[k]]).Some?)
            && (forall k, l :: 0 <= k < l < |r| ==> r[k] < r[l])
            && (forall i :: 0 <= i < |files| ==> (step(files[i]).Some? <==> i in r))
  {
    if files != [] {
      var n := |files| - 1;
      KeptIndicesSpec(files[..n], step);
      var init := KeptIndices(files[..n], step);
      var r := KeptIndices(files, step);
      assert forall k :: 0 <= k < |init| ==> files[init[k]] == files[..n][init[k]];
      forall i | 0 <= i < |files| ensures step(files[i]).Some? <==> i in r {
        if i < n {
          assert files[..n][i] == files[i];
          assert i in r <==> i in init;
        }
      }
    }
  }

  /** The records of a run are exactly the records of the kept files, taken
      in ascending file order: the k-th record comes from the k-th kept file. */
  lemma {:induction false} HarvestByIndices(files: seq<string>, step: string -> Option<Record>)
    ensures var h, ix := Harvest(files, step), KeptIndices(files, step);
            && |h| == |ix|
            && forall k :: 0 <= k < |h| ==> ix[k] < |files| && step(files[ix[k]]) == Some(h[k])
  {
    if files != [] {
      var n := |files| - 1;
      HarvestByIndices(files[..n], step);
      var h0, ix0 := Harvest(files[..n], step), KeptIndices(files[..n], step);
      var h, ix := Harvest(files, step), KeptIndices(files, step);
      var last := step(files[n]);
      assert h == if last.Some? then h0 + [last.value] else h0;
      assert ix == if last.Some? then ix0 + [n] else ix0;
      forall k | 0 <= k < |h| ensures ix[k] < |files| && step(files[ix[k]]) == Some(h[k]) {
        if k < |h0| {
          assert files[..n][ix0[k]] == files[ix0[k]];
          assert ix[k] == ix0[k] && h[k] == h0[k];
        } else {
          assert ix[k] == n && h[k] == last.value;
        }
      }
    }
  }

  /** One more file adds that file's record, if any, at the end. */
  lemma HarvestStep(files: seq<string>, i: nat, step: string -> Option<Record>)
    requires i < |files|
    ensures Harvest(files[..i + 1], step) ==
            Harvest(files[..i], step) + (if step(files[i]).Some? then [step(files[i]).value] else [])
  {
    assert files[..i + 1][..i] == files[..i];
  }

  /** One more file of the loop that has no text, or whose record is missing
      or empty, adds nothing. */
  lemma HarvestSkip(files: seq<string>, i: nat, extractText: string -> Option<string>,
                    extractRecord: (string, string) -> Option<Record>)
    requires i < |files|
    requires FileRecord(files[i], extractText, extractRecord).None?
    ensures Harvest(files[..i + 1], PerFile(extractText, extractRecord)) ==
            Harvest(files[..i], PerFile(extractText, extractRecord))
  {
    HarvestStep(files, i, PerFile(extractText, extractRecord));
    PerFileApplied(extractText, extractRecord, files[i]);
  }

  /** One more file of the loop with text and a non-empty record appends that
      record, after whatever the Run Result held before the run. */
  lemma HarvestKeep(prior: seq<Record>, files: seq<string>, i: nat, extractText: string -> Option<string>,
                    extractRecord: (string, string) -> Option<Record>, text: string, rec: Record)
    requires i < |files|
    requires extractText(files[i]) == Some(text) && text != []
    requires extractRecord(text, files[i]) == Some(rec) && rec != map[]
    ensures Harvest(files[..i + 1], PerFile(extractText, extractRecord)) ==
            Harvest(files[..i], PerFile(extractText, extractRecord)) + [rec]
    ensures prior + Harvest(files[..i], PerFile(extractText, extractRecord)) + [rec] ==
            prior + Harvest(files[..i + 1], PerFile(extractText, extractRecord))
  {
    HarvestStep(files, i, PerFile(extractText, extractRecord));
    PerFileApplied(extractText, extractRecord, files[i]);
  }

  /** Running over two lists one after the other appends the records of the
      first, then those of the second: results accumulate across calls. */
  lemma {:induction false} HarvestConcat(a: seq<string>, b: seq<string>, step: string -> Option<Record>)
    ensures Harvest(a + b, step) == Harvest(a, step) + Harvest(b, step)
    decreases |b|
  {
    if b == [] {
      assert a + b == a;
    } else {
      var m := |b| - 1;
      assert (a + b)[..|a + b| - 1] == a + b[..m];
      assert (a + b)[|a + b| - 1] == b[m];
      HarvestConcat(a, b[..m], step);
    }
  }

  /** A file of an unsupported type contributes nothing, wherever it is in
      the list. */
  lemma UnsupportedContributesNothing(pre: seq<string>, name: string, post: seq<string>,
                                      read: (Format, string) -> Option<string>,
                                      extractRecord: (string, string) -> Option<Record>)
    requires Classify(name).None?
    ensures var step := PerFile(Dispatched(read), extractRecord);
            Harvest(pre + [name] + post, step) == Harvest(pre + post, step)
  {
    var step := PerFile(Dispatched(read), extractRecord);
    HarvestConcat(pre + [name], post, step);
    HarvestConcat(pre, [name], step);
    HarvestConcat(pre, post, step);
    assert [name][..0] == [];
  }

  /** The service extractor never yields an empty record, so the
      `if personal_data` test keeps every record it produces: a file
      contributes exactly the service's record for its text. */
  lemma ServiceRecordKept(name: string, read: (Format, string) -> Option<string>,
                          respond: string -> string, parse: string -> Option<Record>)
    ensures var text := ExtractText(name, read);
            PerFile(Dispatched(read), ServiceExtractor(respond, parse))(name) ==
              if text.Some? then ServiceRecord(respond, parse, text.value, name) else None
  {
    var text := ExtractText(name, read);
    var x := ServiceExtractor(respond, parse);
    assert Dispatched(read)(name) == text;
    if text.Some? {
      assert text.value != [];
      var r := ServiceRecord(respond, parse, text.value, name);
      assert x(text.value, name) == r;
      if r.Some? {
        assert "filename" in r.value;
        assert r.value != map[];
      }
    }
  }

  /** With the service extractor, the k-th record of a run names the k-th
      kept file in its `filename` field. */
  lemma ServiceRunFilenames(files: seq<string>, extractText: string -> Option<string>,
                            respond: string -> string, parse: string -> Option<Record>)
    ensures var step := PerFile(extractText, ServiceExtractor(respond, parse));
            var h, ix := Harvest(files, step), KeptIndices(files, step);
            && |h| == |ix|
            && forall k :: 0 <= k < |h| ==> ix[k] < |files| && "filename" in h[k] && h[k]["filename"] == JString(files[ix[k]])
  {
    var step := PerFile(extractText, ServiceExtractor(respond, parse));
    HarvestByIndices(files, step);
    var h, ix := Harvest(files, step), KeptIndices(files, step);
    forall k | 0 <= k < |h| ensures ix[k] < |files| && "filename" in h[k] && h[k]["filename"] == JString(files[ix[k]]) {
      var name := files[ix[k]];
      assert step(name) == Some(h[k]);
      assert ServiceRecord(respond, parse, extractText(name).value, name) == Some(h[k]);
    }
  }

  /** With pathlib's POSIX matching, the records one run appends name
      pairwise different files: no file name occurs twice in a run. */
  lemma RunFilenamesDistinct(entries: seq<string>, order: seq<string>, extractText: string -> Option<string>,
                             respond: string -> string, parse: string -> Option<Record>)
    requires NoDuplicates(entries) && EnumeratesOnce(order, SupportedExtensions)
    ensures var h := Harvest(CvFiles(entries, order), PerFile(extractText, ServiceExtractor(respond, parse)));
            forall k, l :: 0 <= k < l < |h| ==>
              "filename" in h[k] && "filename" in h[l] && h[k]["filename"] != h[l]["filename"]
  {
    var files := CvFiles(entries, order);
    var step := PerFile(extractText, ServiceExtractor(respond, parse));
    var h, ix := Harvest(files, step), KeptIndices(files, step);
    assert forall k :: 0 <= k < |order| ==> order[k] in SupportedExtensions;
    CvFilesNoDuplicates(entries, order);
    ServiceRunFilenames(files, extractText, respond, parse);
    KeptIndicesSpec(files, step);
    forall k, l | 0 <= k < l < |h|
      ensures "filename" in h[k] && "filename" in h[l] && h[k]["filename"] != h[l]["filename"]
    {
      assert ix[k] < ix[l] < |files|;
      assert files[ix[k]] != files[ix[l]];
    }
  }

  /** A folder holding one readable `.txt` CV and one file of another type
      gives exactly one record: that of the CV. */
  lemma OneTxtOneUnsupported(cv: string, other: string, read: (Format, string) -> Option<string>,
                             extractRecord: (string, string) -> Option<Record>, text: string, rec: Record)
    requires Classify(cv) == Some(Txt) && Classify(other).None?
    requires read(Txt, cv) == Some(text) && !AllSpace(text)
    requires extractRecord(text, cv) == Some(rec) && rec != map[]
    ensures Harvest([cv, other], PerFile(Dispatched(read), extractRecord)) == [rec]
    ensures Harvest([other, cv], PerFile(Dispatched(read), extractRecord)) == [rec]
  {
    var step := PerFile(Dispatched(read), extractRecord);
    PairSteps(cv, other, read, extractRecord, text, rec);
    HarvestOne(cv, step);
    HarvestOne(other, step);
    HarvestPair(cv, other, step);
    HarvestPair(other, cv, step);
  }

  /** A run over two files is the run over the first followed by the run over
      the second. */
  lemma HarvestPair(a: string, b: string, step: string -> Option<Record>)
    ensures Harvest([a, b], step) == Harvest([a], step) + Harvest([b], step)
  {
    HarvestConcat([a], [b], step);
    assert [a] + [b] == [a, b];
  }

  /** In that folder the CV contributes its record and the other file
      nothing. */
  lemma PairSteps(cv: string, other: string, read: (Format, string) -> Option<string>,
                  extractRecord: (string, string) -> Option<Record>, text: string, rec: Record)
    requires Classify(cv) == Some(Txt) && Classify(other).None?
    requires read(Txt, cv) == Some(text) && !AllSpace(text)
    requires extractRecord(text, cv) == Some(rec) && rec != map[]
    ensures PerFile(Dispatched(read), extractRecord)(cv) == Some(rec)
    ensures PerFile(Dispatched(read), extractRecord)(other) == None
  {
    assert ExtractText(cv, read) == Some(text);
    assert Dispatched(read)(cv) == Some(text);
    assert Dispatched(read)(other) == None;
  }

  /** A run over a single file gives that file's record, if any. */
  lemma HarvestOne(name: string, step: string -> Option<Record>)
    ensures Harvest([name], step) == if step(name).Some? then [step(name).value] else []
  {
    assert [name][..0] == [];
  }
}
