/** Which files the pipeline reads and how (`CVExtractor.SUPPORTED_EXTENSIONS`,
    `extract_text_from_file`, and the folder globbing of `process_cv_folder`).
    A file is identified by its name inside the CV folder. The document
    libraries are an abstract reader `read`: given the format and the file
    name, it returns the text the library extracted, or None when the library
    failed. */
module FileDispatch {
  import opened CvValues
  import opened PyStr

  /** The extensions the pipeline looks for. */
  const SupportedExtensions: set<string> := {".pdf", ".docx", ".txt", ".doc"}

  /** The text extractor a file is dispatched to. */
  datatype Format = Pdf | Docx | Txt

  /** pathlib's `PurePath.suffix` of a file name: from the last `.` on, provided
      that dot is neither the first nor the last character; otherwise empty. */
  function Suffix(name: string): (r: string)
    ensures r == [] || (2 <= |r| < |name| && r[0] == '.' && '.' !in r[1..] && EndsWith(name, r))
  {
    var i := RFind(name, '.');
    if 0 < i < |name| - 1 then name[i..] else []
  }

  /** The extractor for a lower-cased suffix: there is one exactly for the
      supported extensions. */
  function FormatOf(ext: string): (r: Option<Format>)
    ensures r.Some? <==> ext in SupportedExtensions
  {
    if ext == ".pdf" then Some(Pdf)
    else if ext == ".docx" || ext == ".doc" then Some(Docx)
    else if ext == ".txt" then Some(Txt)
    else None
  }

  /** The dispatch of `extract_text_from_file`, on the lower-cased suffix: a
      file goes to a reader exactly when that suffix is supported. */
  function Classify(name: string): (r: Option<Format>)
    ensures r.Some? <==> Lower(Suffix(name)) in SupportedExtensions
  {
    FormatOf(Lower(Suffix(name)))
  }

  /** `text if text.strip() else None`: whitespace-only text counts as no text. */
  function NonBlank(text: string): (r: Option<string>)
    ensures r.Some? <==> !AllSpace(text)
    ensures r.Some? ==> r.value == text
  {
    if Strip(text) == [] then None else Some(text)
  }

  /** `extract_text_from_file`: a supported file goes to its format's reader,
      whose whitespace-only text is dropped; an unsupported one yields None.
      So there is text exactly when the file is supported and its reader
      returns text that is not blank, and then it is the reader's text. */
  function ExtractText(name: string, read: (Format, string) -> Option<string>): (r: Option<string>)
    ensures Classify(name).None? ==> r == None
    ensures r.Some? <==> && Classify(name).Some?
                         && read(Classify(name).value, name).Some?
                         && !AllSpace(read(Classify(name).value, name).value)
    ensures r.Some? ==> r == read(Classify(name).value, name) && r.value != []
  {
    match Classify(name)
    case None => None
    case Some(f) =>
      match read(f, name)
      case None => None
      case Some(text) => NonBlank(text)
  }

  // ---------------------------------------------------------------------
  // Dispatch

  /** The suffix of a non-empty stem followed by `.xyz` is `.xyz`. */
  lemma SuffixOf(stem: string, ext: string)
    requires |stem| > 0 && |ext| >= 2 && ext[0] == '.' && '.' !in ext[1..]
    ensures Suffix(stem + ext) == ext
  {
    var name := stem + ext;
    assert name[|stem| + 1..] == ext[1..];
    RFindIs(name, '.', |stem|);
    assert name[|stem|..] == ext;
  }

  /** A name made of a non-empty stem and an extension `.xyz` whose lower case
      is supported goes to that extension's reader, whatever the case of the
      extension. */
  lemma ClassifyByExtension(stem: string, ext: string)
    requires |stem| > 0 && |ext| >= 2 && ext[0] == '.' && '.' !in ext[1..]
    requires Lower(ext) in SupportedExtensions
    ensures Classify(stem + ext) == FormatOf(Lower(ext)) && Classify(stem + ext).Some?
  {
    SuffixOf(stem, ext);
  }



  /** Worked names: the dispatch ignores the case of the extension and
      covers `.doc` with the DOCX reader. */
  lemma ClassifyPdfExample()
    ensures Classify("cv.PDF") == Some(Pdf)
  {
    LowerLiterals();
    assert "cv" + ".PDF" == "cv.PDF";
    SuffixOf("cv", ".PDF");
  }

  lemma ClassifyDocExample()
    ensures Classify("resume.Doc") == Some(Docx)
  {
    LowerLiterals();
    assert "resume" + ".Doc" == "resume.Doc";
    SuffixOf("resume", ".Doc");
  }

  lemma ClassifyTxtExample()
    ensures Classify("notes.txt") == Some(Txt)
  {
    LowerLiterals();
    assert "notes" + ".txt" == "notes.txt";
    SuffixOf("notes", ".txt");
  }

  /** Worked name: a dot file has no suffix, so `.pdf` alone is unsupported. */
  lemma ClassifyDotFileExample()
    ensures Classify(".pdf") == None
  {
    RFindIs(".pdf", '.', 0);
    assert Suffix(".pdf") == [];
    assert Lower([]) == [];
  }

  /** Worked name: only the last extension counts. */
  lemma ClassifyDoubleExtensionExample()
    ensures Classify("cv.pdf.zip") == None
  {
    assert Suffix("cv.pdf.zip") == ".zip" by {
      assert "cv.pdf" + ".zip" == "cv.pdf.zip";
      SuffixOf("cv.pdf", ".zip");
    }
    assert Lower(".zip") == ".zip" by {
      LowerLiterals();
    }
  }

  /** Worked name: a name without a dot is unsupported. */
  lemma ClassifyNoExtensionExample()
    ensures Classify("README") == None
  {
    assert '.' !in "README";
    assert Suffix("README") == [];
    assert Lower([]) == [];
  }

  // ---------------------------------------------------------------------
  // Globbing the folder

  /** `folder.glob("*" + pattern)` with pathlib's POSIX matching, which is
      case-sensitive whatever the file system: the
      entries of the folder listing whose name ends with `pattern`, in listing
      order. */
  function Glob(entries: seq<string>, pattern: string): (r: seq<string>)
    ensures forall n :: n in r <==> n in entries && EndsWith(n, pattern)
    ensures |r| <= |entries|
  {
    if entries == [] then []
    else
      var rest := Glob(entries[1..], pattern);
      assert forall n :: n in entries <==> n == entries[0] || n in entries[1..] by {
        assert entries == [entries[0]] + entries[1..];
      }
      if EndsWith(entries[0], pattern) then [entries[0]] + rest else rest
  }

  /** The file list of `process_cv_folder`: for each extension in the set's
      iteration order `order`, the matches of its lower-case form, then those
      of its upper-case form. */
  function CvFiles(entries: seq<string>, order: seq<string>): (r: seq<string>)
    ensures forall n :: n in r ==> n in entries
  {
    if order == [] then []
    else
      var e := order[|order| - 1];
      CvFiles(entries, order[..|order| - 1]) + Glob(entries, e) + Glob(entries, Upper(e))
  }

  /** Lines 202-205 of `process_cv_folder`: collect the matching files. */
  method GlobCvFiles(entries: seq<string>, order: seq<string>) returns (cvFiles: seq<string>)
    ensures cvFiles == CvFiles(entries, order)
  {
    cvFiles := [];
    var i := 0;
    while i < |order|
      invariant 0 <= i <= |order|
      invariant cvFiles == CvFiles(entries, order[..i])
    {
      var ext := order[i];
      assert order[..i + 1][..i] == order[..i];
      cvFiles := cvFiles + Glob(entries, ext);
      cvFiles := cvFiles + Glob(entries, Upper(ext));
      i := i + 1;
    }
    assert order[..|order|] == order;
  }

  /** The name ends with the lower-case or the upper-case form of `ext`. */
  predicate MatchesExtension(name: string, ext: string) {
    EndsWith(name, ext) || EndsWith(name, Upper(ext))
  }

  /** A name is collected exactly when it is listed and ends with one of the
      extensions of `order` in lower or upper case. */
  lemma {:induction false} CvFilesMembers(entries: seq<string>, order: seq<string>, name: string)
    ensures name in CvFiles(entries, order) <==>
            name in entries && exists k :: 0 <= k < |order| && MatchesExtension(name, order[k])
  {
    if order != [] {
      var init, e := order[..|order| - 1], order[|order| - 1];
      CvFilesMembers(entries, init, name);
      assert name in CvFiles(entries, order) <==>
             name in CvFiles(entries, init) || (name in entries && MatchesExtension(name, e));
      MatchesSomeLast(order, name);
    }
  }

  /** `name` matches one of the extensions of `exts`, in either case. */
  predicate MatchesSome(name: string, exts: seq<string>) {
    exists k :: 0 <= k < |exts| && MatchesExtension(name, exts[k])
  }

  /** A name matches an extension of `order` exactly when it matches one of
      all but the last, or the last. */
  lemma MatchesSomeLast(order: seq<string>, name: string)
    requires order != []
    ensures MatchesSome(name, order) <==>
            MatchesSome(name, order[..|order| - 1]) || MatchesExtension(name, order[|order| - 1])
  {
    var init := order[..|order| - 1];
    if exists k :: 0 <= k < |order| && MatchesExtension(name, order[k]) {
      var k :| 0 <= k < |order| && MatchesExtension(name, order[k]);
      if k < |init| {
        assert init[k] == order[k];
      }
    }
    if exists k :: 0 <= k < |init| && MatchesExtension(name, init[k]) {
      var k :| 0 <= k < |init| && MatchesExtension(name, init[k]);
      assert init[k] == order[k];
    }
  }

  /** The eight file-name patterns that the supported set gives. */
  predicate MatchesSupportedPattern(name: string) {
    || EndsWith(name, ".pdf") || EndsWith(name, ".PDF")
    || EndsWith(name, ".docx") || EndsWith(name, ".DOCX")
    || EndsWith(name, ".txt") || EndsWith(name, ".TXT")
    || EndsWith(name, ".doc") || EndsWith(name, ".DOC")
  }

  /** `order` lists each element of `xs` exactly once, as iterating a set does. */
  predicate EnumeratesOnce(order: seq<string>, xs: set<string>) {
    && (forall k :: 0 <= k < |order| ==> order[k] in xs)
    && (forall e :: e in xs ==> e in order)
    && NoDuplicates(order)
  }

  /** The upper-case forms the folder is also searched for. */
  lemma UpperSupported()
    ensures Upper(".pdf") == ".PDF" && Upper(".docx") == ".DOCX"
    ensures Upper(".txt") == ".TXT" && Upper(".doc") == ".DOC"
  {
    assert Upper(".pdf") == [UpperChar('.'), UpperChar('p'), UpperChar('d'), UpperChar('f')];
    assert Upper(".docx") == [UpperChar('.'), UpperChar('d'), UpperChar('o'), UpperChar('c'), UpperChar('x')];
    assert Upper(".txt") == [UpperChar('.'), UpperChar('t'), UpperChar('x'), UpperChar('t')];
    assert Upper(".doc") == [UpperChar('.'), UpperChar('d'), UpperChar('o'), UpperChar('c')];
  }

  /** Lower-case forms of the worked extensions. */
  lemma LowerLiterals()
    ensures Lower(".PDF") == ".pdf" && Lower(".Doc") == ".doc" && Lower(".txt") == ".txt" && Lower(".zip") == ".zip"
  {
    assert Lower(".PDF") == [LowerChar('.'), LowerChar('P'), LowerChar('D'), LowerChar('F')];
    assert Lower(".Doc") == [LowerChar('.'), LowerChar('D'), LowerChar('o'), LowerChar('c')];
    assert Lower(".txt") == [LowerChar('.'), LowerChar('t'), LowerChar('x'), LowerChar('t')];
    assert Lower(".zip") == [LowerChar('.'), LowerChar('z'), LowerChar('i'), LowerChar('p')];
  }

  /** Whatever order the set is iterated in, a listed name is collected
      exactly when it ends with one of the eight all-lower-case or
      all-upper-case extensions: `cv.Pdf` is not collected. */
  lemma CvFilesSelects(entries: seq<string>, order: seq<string>, name: string)
    requires EnumeratesOnce(order, SupportedExtensions)
    ensures name in CvFiles(entries, order) <==> name in entries && MatchesSupportedPattern(name)
  {
    CvFilesMembers(entries, order, name);
    SupportedPatternMatches(name);
    if MatchesSupportedPattern(name) {
      var e :| e in SupportedExtensions && MatchesExtension(name, e);
      assert e in order;
    }
  }

  /** The eight patterns are the two case forms of the four extensions. */
  lemma SupportedPatternMatches(name: string)
    ensures MatchesSupportedPattern(name) <==> exists e :: e in SupportedExtensions && MatchesExtension(name, e)
  {
    UpperSupported();
    if MatchesSupportedPattern(name) {
      if EndsWith(name, ".pdf") || EndsWith(name, ".PDF") {
        assert MatchesExtension(name, ".pdf");
      } else if EndsWith(name, ".docx") || EndsWith(name, ".DOCX") {
        assert MatchesExtension(name, ".docx");
      } else if EndsWith(name, ".txt") || EndsWith(name, ".TXT") {
        assert MatchesExtension(name, ".txt");
      } else {
        assert MatchesExtension(name, ".doc");
      }
    }
  }

  /** The name is exactly one of the eight patterns, with nothing in front. */
  predicate BarePattern(name: string) {
    exists e :: e in SupportedExtensions && (name == e || name == Upper(e))
  }

  /** A dot followed by text without dots and without capitals. */
  predicate PlainExtension(e: string) {
    && |e| >= 2 && e[0] == '.' && '.' !in e[1..]
    && forall k :: 0 <= k < |e| ==> !IsAsciiUpper(e[k])
  }

  /** The supported extensions are plain. */
  lemma SupportedPlain(e: string)
    requires e in SupportedExtensions
    ensures PlainExtension(e)
  {
  }

  /** A plain extension and its upper-case form are a dot followed by
      dot-free text, and both lower-case to the extension. */
  lemma ExtensionForms(e: string)
    requires PlainExtension(e)
    ensures Lower(e) == e
    ensures var u := Upper(e); |u| == |e| && u[0] == '.' && '.' !in u[1..] && Lower(u) == e
  {
    var u := Upper(e);
    LowerNoCapitals(e);
    LowerUpper(e);
    assert u[0] == '.';
    forall k | 1 <= k < |u| ensures u[k] != '.' {
      assert e[k] in e[1..];
    }
  }

  /** A name that is a dot followed by dot-free text has no suffix, so no
      reader takes it. */
  lemma BareUnsupported(name: string)
    requires |name| > 0 && name[0] == '.' && '.' !in name[1..]
    ensures Classify(name) == None
  {
    RFindIs(name, '.', 0);
    assert Suffix(name) == [];
  }

  /** A name longer than the extension it matches, in either case, goes to
      that extension's reader. */
  lemma ClassifyMatch(name: string, e: string)
    requires e in SupportedExtensions && MatchesExtension(name, e) && |name| > |e|
    ensures Classify(name) == FormatOf(e) && Classify(name).Some?
  {
    SupportedPlain(e);
    ExtensionForms(e);
    var p := if EndsWith(name, e) then e else Upper(e);
    var stem := name[..|name| - |p|];
    assert stem + p == name;
    SuffixOf(stem, p);
  }

  /** Every collected file reaches a reader except a file named exactly after
      one of the eight patterns (`.pdf`, `.PDF`, ...): pathlib's `*` also
      matches an empty stem, but such a name has no suffix. A collected file
      goes to the reader of the extension it matches. */
  lemma CollectedFilesRead(entries: seq<string>, order: seq<string>, name: string)
    requires EnumeratesOnce(order, SupportedExtensions) && name in CvFiles(entries, order)
    ensures Classify(name).None? <==> BarePattern(name)
    ensures forall e :: e in SupportedExtensions && MatchesExtension(name, e) && !BarePattern(name) ==>
                          Classify(name) == FormatOf(e)
  {
    CvFilesMembers(entries, order, name);
    var k :| 0 <= k < |order| && MatchesExtension(name, order[k]);
    forall e | e in SupportedExtensions && MatchesExtension(name, e) && !BarePattern(name)
      ensures Classify(name) == FormatOf(e)
    {
      LongerThanPattern(name, e);
      ClassifyMatch(name, e);
    }
    if BarePattern(name) {
      var e :| e in SupportedExtensions && (name == e || name == Upper(e));
      SupportedPlain(e);
      ExtensionForms(e);
      BareUnsupported(name);
    } else {
      LongerThanPattern(name, order[k]);
      ClassifyMatch(name, order[k]);
    }
  }

  /** A name that matches an extension but is not one of the bare patterns is
      longer than the extension. */
  lemma LongerThanPattern(name: string, e: string)
    requires e in SupportedExtensions && MatchesExtension(name, e) && !BarePattern(name)
    ensures |name| > |e|
  {
    var p := if EndsWith(name, e) then e else Upper(e);
    assert name[|name| - |p|..] == p;
  }

  /** Worked listing: a file named `.pdf` is collected but has no reader. */
  lemma DotFileCollected(order: seq<string>)
    requires EnumeratesOnce(order, SupportedExtensions)
    ensures ".pdf" in CvFiles([".pdf"], order) && Classify(".pdf") == None
  {
    CvFilesSelects([".pdf"], order, ".pdf");
    ClassifyDotFileExample();
  }

  /** The last character of a name ending with `p`. */
  lemma LastCharOfEnding(name: string, p: string)
    requires |p| > 0 && EndsWith(name, p)
    ensures name[|name| - 1] == p[|p| - 1]
  {
    assert name[|name| - |p|..][|p| - 1] == name[|name| - 1];
  }

  /** The last character of a name matching a supported extension's pattern,
      in lower case, is that extension's last character. */
  lemma LastCharOfMatch(name: string, ext: string)
    requires ext in SupportedExtensions && MatchesExtension(name, ext)
    ensures LowerChar(name[|name| - 1]) == ext[|ext| - 1]
    ensures EndsWith(name, ext) <==> 'a' <= name[|name| - 1] <= 'z'
  {
    UpperSupported();
    if EndsWith(name, ext) {
      LastCharOfEnding(name, ext);
    } else {
      LastCharOfEnding(name, Upper(ext));
    }
  }

  /** A name matches the patterns of at most one supported extension, and not
      both the lower- and the upper-case pattern. */
  lemma PatternsDisjoint(name: string, e1: string, e2: string)
    requires e1 in SupportedExtensions && e2 in SupportedExtensions
    requires MatchesExtension(name, e1) && MatchesExtension(name, e2)
    ensures e1 == e2
    ensures !(EndsWith(name, e1) && EndsWith(name, Upper(e1)))
  {
    LastCharOfMatch(name, e1);
    LastCharOfMatch(name, e2);
  }

  /** The elements of a filtered listing have no duplicates when the listing
      has none. */
  lemma {:induction false} GlobNoDuplicates(entries: seq<string>, pattern: string)
    requires NoDuplicates(entries)
    ensures NoDuplicates(Glob(entries, pattern))
  {
    if entries != [] {
      GlobNoDuplicates(entries[1..], pattern);
      assert entries[0] !in entries[1..] by {
        forall k | 0 <= k < |entries[1..]| ensures entries[1..][k] != entries[0] {
          assert entries[1..][k] == entries[k + 1];
        }
      }
    }
  }

  /** Concatenating two duplicate-free sequences with no common element gives
      a duplicate-free sequence. */
  lemma ConcatNoDuplicates(a: seq<string>, b: seq<string>)
    requires NoDuplicates(a) && NoDuplicates(b)
    requires forall n :: n in a ==> n !in b
    ensures NoDuplicates(a + b)
  {
    forall i, j | 0 <= i < j < |a + b| ensures (a + b)[i] != (a + b)[j] {
      if j < |a| {
        assert (a + b)[i] == a[i] && (a + b)[j] == a[j];
      } else if i >= |a| {
        assert (a + b)[i] == b[i - |a|] && (a + b)[j] == b[j - |a|];
      } else {
        assert (a + b)[i] == a[i] && (a + b)[j] == b[j - |a|];
        assert a[i] in a;
      }
    }
  }

  /** Names collected for earlier extensions match none of the patterns of
      a different extension. */
  lemma EarlierMatchesOtherExtension(entries: seq<string>, init: seq<string>, e: string, n: string)
    requires forall k :: 0 <= k < |init| ==> init[k] in SupportedExtensions && init[k] != e
    requires e in SupportedExtensions
    requires n in CvFiles(entries, init)
    ensures !MatchesExtension(n, e)
  {
    CvFilesMembers(entries, init, n);
    var k :| 0 <= k < |init| && MatchesExtension(n, init[k]);
    if MatchesExtension(n, e) { PatternsDisjoint(n, init[k], e); }
  }

  /** The lower- and upper-case matches of one extension share no name. */
  lemma CaseMatchesDisjoint(entries: seq<string>, e: string, n: string)
    requires e in SupportedExtensions
    requires n in Glob(entries, e)
    ensures n !in Glob(entries, Upper(e))
  {
    if n in Glob(entries, Upper(e)) { PatternsDisjoint(n, e, e); }
  }

  /** With pathlib's POSIX matching no file is collected twice: the eight
      patterns are pairwise exclusive. */
  lemma {:induction false} CvFilesNoDuplicates(entries: seq<string>, order: seq<string>)
    requires NoDuplicates(entries) && NoDuplicates(order)
    requires forall k :: 0 <= k < |order| ==> order[k] in SupportedExtensions
    ensures NoDuplicates(CvFiles(entries, order))
  {
    if order != [] {
      var init := order[..|order| - 1];
      var e := order[|order| - 1];
      var prev := CvFiles(entries, init);
      var lo, up := Glob(entries, e), Glob(entries, Upper(e));
      assert forall k :: 0 <= k < |init| ==> init[k] == order[k];
      assert forall k :: 0 <= k < |init| ==> init[k] in SupportedExtensions && init[k] != e;
      CvFilesNoDuplicates(entries, init);
      GlobNoDuplicates(entries, e);
      GlobNoDuplicates(entries, Upper(e));
      forall n | n in prev ensures n !in lo {
        EarlierMatchesOtherExtension(entries, init, e, n);
      }
      ConcatNoDuplicates(prev, lo);
      forall n | n in prev + lo ensures n !in up {
        if n in prev { EarlierMatchesOtherExtension(entries, init, e, n); }
        else { CaseMatchesDisjoint(entries, e, n); }
      }
      ConcatNoDuplicates(prev + lo, up);
    }
  }
}
