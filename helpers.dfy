/**
 * The commit enrichment pipeline `enrich_commits_data`: each commit row gets
 * the CVE year, the file extension and the language of the file, and rows
 * whose language is noise (plain text, markdown, JSON, YAML) are dropped.
 * The table is a sequence of rows; the columns the pipeline does not touch
 * are carried in `rest`.
 */
module Helpers {
  import opened Wrappers
  import opened StrToInteger

  /** One input row: one file changed by one commit linked to one CVE. */
  datatype Commit<T> = Commit(cveId: string, file: string, rest: T)

  /** An output row: the input columns plus the three derived columns. */
  datatype EnrichedCommit<T> = EnrichedCommit(
    cveId: string, file: string, rest: T,
    year: int, fileExtension: Option<string>, language: Option<string>)

  /** The batch fails on the first year text that does not parse as an integer. */
  datatype EnrichError = InvalidYear(text: string)

  // ---------------------------------------------------------------------------
  // Step 1: the year, from the text before the first '-' of the CVE id.
  // ---------------------------------------------------------------------------

  /** Element 0 of splitting `cveId` on '-': everything before the first '-'. */
  function YearPrefix(cveId: string): (prefix: string)
    ensures prefix <= cveId
    ensures '-' !in prefix
    ensures |prefix| < |cveId| ==> cveId[|prefix|] == '-'
  {
    if cveId == [] || cveId[0] == '-' then [] else [cveId[0]] + YearPrefix(cveId[1..])
  }

  /** The year column; None is the strict parse failure that aborts the batch. */
  function ParseYear(cveId: string): (year: Option<int>)
    ensures year.Some? ==> 0 <= year.value <= Int64Max
    ensures year.Some? ==> IsIntegerText(YearPrefix(cveId)) && year.value == DigitsValue(Unsigned(YearPrefix(cveId)))
    ensures IsIntegerText(YearPrefix(cveId)) && DigitsValue(Unsigned(YearPrefix(cveId))) <= Int64Max ==> year.Some?
  {
    ParseInt(YearPrefix(cveId))
  }

  // ---------------------------------------------------------------------------
  // Step 2: the file extension, group 1 of the greedy pattern `.*\.(.*)`.
  // ---------------------------------------------------------------------------

  /** The text after the last '.' of `file`; None when `file` has no '.'. */
  function FileExtension(file: string): (ext: Option<string>)
    ensures ext.None? <==> '.' !in file
    ensures ext.Some? ==>
      && '.' !in ext.value
      && |ext.value| < |file|
      && file[|file| - |ext.value| - 1] == '.'
      && file[|file| - |ext.value|..] == ext.value
  {
    if file == [] then None
    else if file[|file| - 1] == '.' then Some("")
    else match FileExtension(file[..|file| - 1])
      case None => None
      case Some(e) => Some(e + [file[|file| - 1]])
  }

  // ---------------------------------------------------------------------------
  // Step 3: the language, by replacing each extension through a literal table.
  // ---------------------------------------------------------------------------

  /**
   * The replacement table, with its entries in source order, written as two
   * map displays (the first 25 and the last 25 entries) joined by `+`. A key
   * given again later, in the same display or in the right operand, takes the
   * later value, as in a dictionary literal.
   */
  const Languages: map<string, string> := LanguagesHead + LanguagesTail

  const LanguagesHead: map<string, string> := map[
    "c" := "C", "h" := "C", "cpp" := "C++", "hpp" := "C++", "cc" := "C++", "hh" := "C++",
    "java" := "Java", "py" := "Python", "js" := "JavaScript", "ts" := "TypeScript",
    "tsx" := "TypeScript", "go" := "Go", "rb" := "Ruby", "php" := "PHP", "phtml" := "PHP",
    "cs" := "C#", "swift" := "Swift", "scala" := "Scala", "rs" := "Rust", "kt" := "Kotlin",
    "clj" := "Clojure", "cljc" := "Clojure", "cljs" := "Clojure", "groovy" := "Groovy",
    "scala" := "Scala"
  ]

  const LanguagesTail: map<string, string> := map[
    "dart" := "Dart", "lua" := "Lua", "r" := "R", "sh" := "Shell", "bash" := "Shell",
    "zsh" := "Shell", "ps1" := "PowerShell", "psm1" := "PowerShell", "bat" := "Batchfile",
    "cmd" := "Batchfile", "awk" := "Awk", "yml" := "YAML", "yaml" := "YAML", "json" := "JSON",
    "xml" := "XML", "html" := "HTML", "css" := "CSS", "scss" := "SCSS", "less" := "Less",
    "styl" := "Stylus", "sql" := "SQL", "pl" := "Perl", "jl" := "Julia", "hcl" := "HCL",
    "tf" := "terraform"
  ]

  /**
   * The language column: a table key is replaced by its value, any other
   * extension is kept as it is, and a missing extension stays missing.
   */
  function Language(ext: Option<string>): (lang: Option<string>)
    ensures lang.Some? <==> ext.Some?
  {
    match ext
    case None => None
    case Some(e) => Some(if e in Languages then Languages[e] else e)
  }

  // ---------------------------------------------------------------------------
  // Step 4: the noise filter.
  // ---------------------------------------------------------------------------

  const NoiseLanguages: set<string> := {"txt", "md", "JSON", "YAML"}

  /** The extensions whose language is noise, derived in NoiseExtensionIff. */
  const NoiseExtensions: set<string> := {"json", "yml", "yaml", "txt", "md", "JSON", "YAML"}

  /**
   * Whether a row with this language survives the filter. A present language
   * survives exactly when it is not noise. A missing language makes the
   * membership test null and the filter keeps only rows whose test is true,
   * so such a row is dropped; nothing else below rests on that choice.
   */
  function Keep(language: Option<string>): (keep: bool)
    ensures language.Some? ==> (keep <==> language.value !in NoiseLanguages)
  {
    match language
    case None => false
    case Some(l) => l !in NoiseLanguages
  }

  /** Whether the row of commit `c` survives the filter. */
  predicate Survives<T>(c: Commit<T>) {
    Keep(Language(FileExtension(c.file)))
  }

  /** Drops the rows whose language fails Keep, keeping the order of the rest. */
  function FilterNoise<T>(rows: seq<EnrichedCommit<T>>): (kept: seq<EnrichedCommit<T>>)
    ensures |kept| <= |rows|
    ensures forall k :: 0 <= k < |kept| ==> Keep(kept[k].language) && kept[k] in rows
  {
    if rows == [] then []
    else
      var n := |rows| - 1;
      FilterNoise(rows[..n]) + (if Keep(rows[n].language) then [rows[n]] else [])
  }

  // ---------------------------------------------------------------------------
  // The whole pipeline.
  // ---------------------------------------------------------------------------

  /** The row of commit `c` with its three derived columns. */
  function Derive<T>(c: Commit<T>, year: int): EnrichedCommit<T> {
    var ext := FileExtension(c.file);
    EnrichedCommit(c.cveId, c.file, c.rest, year, ext, Language(ext))
  }

  /** The three column derivations over the whole table; one bad year fails all. */
  function WithDerivedColumns<T>(commits: seq<Commit<T>>): (r: Result<seq<EnrichedCommit<T>>, EnrichError>)
    ensures r.Success? <==> forall i :: 0 <= i < |commits| ==> ParseYear(commits[i].cveId).Some?
    ensures r.Success? ==> |r.value| == |commits|
    ensures r.Success? ==> forall i :: 0 <= i < |commits| ==>
      ParseYear(commits[i].cveId).Some? && r.value[i] == Derive(commits[i], ParseYear(commits[i].cveId).value)
    ensures r.Failure? ==> exists i :: (0 <= i < |commits| && ParseYear(commits[i].cveId).None? &&
                                        r.error == InvalidYear(YearPrefix(commits[i].cveId)))
  {
    if commits == [] then Success([])
    else match ParseYear(commits[0].cveId)
      case None => Failure(InvalidYear(YearPrefix(commits[0].cveId)))
      case Some(y) =>
        match WithDerivedColumns(commits[1..])
        case Failure(e) => Failure(e)
        case Success(rows) => Success([Derive(commits[0], y)] + rows)
  }

  /** `enrich_commits_data`: derive the columns, then filter out the noise rows. */
  function EnrichCommitsData<T>(commits: seq<Commit<T>>): (r: Result<seq<EnrichedCommit<T>>, EnrichError>)
    ensures r.Failure? <==> exists i :: 0 <= i < |commits| && ParseYear(commits[i].cveId).None?
    ensures r.Failure? ==> exists i :: (0 <= i < |commits| && ParseYear(commits[i].cveId).None? &&
                                        r.error == InvalidYear(YearPrefix(commits[i].cveId)))
    ensures r.Success? ==> |r.value| <= |commits|
  {
    match WithDerivedColumns(commits)
    case Failure(e) => Failure(e)
    case Success(rows) => Success(FilterNoise(rows))
  }

  // ---------------------------------------------------------------------------
  // Properties of the year column.
  // ---------------------------------------------------------------------------

  /** The year text of an id "<prefix>-<anything>" is the prefix when the prefix has no '-'. */
  lemma YearPrefixOf(prefix: string, sequence: string)
    requires '-' !in prefix
    ensures YearPrefix(prefix + "-" + sequence) == prefix
  {
    var id := prefix + "-" + sequence;
    var p := YearPrefix(id);
    assert id[|prefix|] == '-';
    assert p == id[..|p|] == prefix;
  }

  /** An id made of a rendered year, a '-' and any sequence text parses to that year. */
  lemma YearOfCveId(year: nat, sequence: string)
    requires year <= Int64Max
    ensures ParseYear(ShowNat(year) + "-" + sequence) == Some(year)
  {
    var text := ShowNat(year);
    assert '-' !in text by {
      forall i | 0 <= i < |text| ensures text[i] != '-' { assert IsDigit(text[i]); }
    }
    YearPrefixOf(text, sequence);
    ParseShowNat(year);
  }

  /** The year of a well-formed id. */
  lemma YearOfExampleId()
    ensures ParseYear("2021-34527") == Some(2021)
  {
    assert ShowNat(2021) == "2021";
    assert "2021-34527" == ShowNat(2021) + "-" + "34527";
    YearOfCveId(2021, "34527");
  }

  /** An id that keeps its "CVE" prefix has no numeric year text. */
  lemma YearOfPrefixedIdFails()
    ensures ParseYear("CVE-2021-3") == None
  {
    YearPrefixOf("CVE", "2021-3");
    assert !IsDigit('C');
  }

  /** An id that starts with '-' has an empty year text, which does not parse. */
  lemma YearOfLeadingDashFails()
    ensures ParseYear("-2021-3") == None
  {
    YearPrefixOf("", "2021-3");
  }

  // ---------------------------------------------------------------------------
  // Properties of the extension column.
  // ---------------------------------------------------------------------------

  /** The extension of "<stem>.<ext>" is `ext` whenever `ext` has no '.'. */
  lemma ExtensionAfterLastDot(stem: string, ext: string)
    requires '.' !in ext
    ensures FileExtension(stem + "." + ext) == Some(ext)
  {
    var file := stem + "." + ext;
    assert file[|stem|] == '.';
    var e := FileExtension(file).value;
    assert e == file[|file| - |e|..] == ext;
  }

  lemma ExtensionExamples()
    ensures FileExtension("src/main.cpp") == Some("cpp")
  {
    ExtensionAfterLastDot("src/main", "cpp");
  }

  /** Only the text after the last of several dots is the extension. */
  lemma LastOfSeveralDots()
    ensures FileExtension("lib.tar.gz") == Some("gz")
  {
    ExtensionAfterLastDot("lib.tar", "gz");
  }

  /** A trailing dot gives the empty extension; the pattern does not stop at '/'. */
  lemma ExtensionEdgeCases()
    ensures FileExtension("README") == None
    ensures FileExtension("archive.") == Some("")
    ensures FileExtension("a.d/b") == Some("d/b")
  {
    ExtensionAfterLastDot("archive", "");
    ExtensionAfterLastDot("a", "d/b");
  }

  // ---------------------------------------------------------------------------
  // Properties of the language column.
  // ---------------------------------------------------------------------------

  /**
   * "scala" is listed twice with the same value, so adding the earlier entry
   * once more leaves the table unchanged: whichever entry wins, the table is
   * the same function.
   */
  lemma DuplicateScalaEntryAgrees()
    ensures "scala" in Languages && Languages["scala"] == "Scala"
    ensures Languages["scala" := "Scala"] == Languages
  {
  }

  /** The facts about the 25 entries of the first display that the lemmas below use. */
  lemma HeadEntries()
    ensures forall k :: k in LanguagesHead ==> LanguagesHead[k] !in NoiseLanguages && LanguagesHead[k] != "txt" && LanguagesHead[k] != "md"
    ensures "txt" !in LanguagesHead && "md" !in LanguagesHead && "JSON" !in LanguagesHead && "YAML" !in LanguagesHead
  {
  }

  /** No value of the second display is "txt" or "md". */
  lemma TailValues()
    ensures forall k :: k in LanguagesTail ==> LanguagesTail[k] != "txt" && LanguagesTail[k] != "md"
  {
  }

  /** In the second display, exactly json, yml and yaml map to a noise language. */
  lemma TailNoiseKeys()
    ensures forall k :: k in LanguagesTail ==> (LanguagesTail[k] in NoiseLanguages <==> k in {"json", "yml", "yaml"})
  {
  }

  /** No noise language name is a key of the second display. */
  lemma TailKeys()
    ensures "txt" !in LanguagesTail && "md" !in LanguagesTail && "JSON" !in LanguagesTail && "YAML" !in LanguagesTail
  {
  }

  /** No table value is "txt" or "md". */
  lemma NoTableValueIsTxtOrMd()
    ensures forall k :: k in Languages ==> Languages[k] != "txt" && Languages[k] != "md"
  {
    HeadEntries();
    TailValues();
  }

  /** Exactly the keys json, yml and yaml map to a noise language. */
  lemma TableNoiseKeys()
    ensures forall k :: k in Languages ==> (Languages[k] in NoiseLanguages <==> k in {"json", "yml", "yaml"})
  {
    HeadEntries();
    TailNoiseKeys();
  }

  /** None of the noise language names is itself a table key. */
  lemma NoiseNamesAreNotKeys()
    ensures "txt" !in Languages && "md" !in Languages
    ensures "JSON" !in Languages && "YAML" !in Languages
  {
    HeadEntries();
    TailKeys();
  }

  /** The keys that map to noise languages are in the table. */
  lemma NoiseKeysPresent()
    ensures "json" in Languages && "yml" in Languages && "yaml" in Languages
  {
    assert "json" in LanguagesTail && "yml" in LanguagesTail && "yaml" in LanguagesTail;
  }

  /** An extension gives a noise language exactly when it is one of NoiseExtensions. */
  lemma NoiseExtensionIff(ext: string)
    ensures Language(Some(ext)).value in NoiseLanguages <==> ext in NoiseExtensions
  {
    if ext in Languages {
      TableNoiseKeys();
      NoiseNamesAreNotKeys();
      assert Language(Some(ext)).value == Languages[ext];
    } else {
      NoiseKeysPresent();
      assert Language(Some(ext)).value == ext;
    }
  }

  /** Extensions that are table keys take the listed language. */
  lemma RustExample()
    ensures Language(Some("rs")) == Some("Rust")
  {
    assert "rs" !in LanguagesTail;
  }

  lemma CppExample()
    ensures Language(Some("cpp")) == Some("C++")
  {
    assert "cpp" !in LanguagesTail;
  }

  /** Both YAML extensions map to "YAML". */
  lemma YamlExamples()
    ensures Language(Some("yml")) == Some("YAML") && Language(Some("yaml")) == Some("YAML")
  {
  }

  lemma JsonAndTerraformExamples()
    ensures Language(Some("json")) == Some("JSON")
    ensures Language(Some("tf")) == Some("terraform")
  {
  }

  /** Extensions that are not keys pass through unchanged; no extension gives no language. */
  lemma UnmappedLanguageExamples()
    ensures Language(Some("txt")) == Some("txt") && Language(Some("md")) == Some("md")
    ensures Language(Some("xyz")) == Some("xyz")
    ensures Language(Some("JSON")) == Some("JSON")
    ensures Language(None) == None
  {
    NoiseNamesAreNotKeys();
    assert "xyz" !in LanguagesHead && "xyz" !in LanguagesTail;
  }

  // ---------------------------------------------------------------------------
  // Properties of the filter and of the whole pipeline.
  // ---------------------------------------------------------------------------

  /** The positions, in increasing order, of the elements of `s` that satisfy `p`. */
  function IndicesWhere<X>(s: seq<X>, p: X -> bool): (idx: seq<nat>)
    ensures |idx| <= |s|
    ensures forall k :: 0 <= k < |idx| ==> idx[k] < |s|
  {
    if s == [] then []
    else
      var n := |s| - 1;
      IndicesWhere(s[..n], p) + (if p(s[n]) then [n] else [])
  }

  /** IndicesWhere lists the positions that satisfy `p`, each once, in increasing order. */
  lemma {:induction false} IndicesWhereSelects<X>(s: seq<X>, p: X -> bool)
    ensures forall k, l :: 0 <= k < l < |IndicesWhere(s, p)| ==> IndicesWhere(s, p)[k] < IndicesWhere(s, p)[l]
    ensures forall i :: 0 <= i < |s| ==> (i in IndicesWhere(s, p) <==> p(s[i]))
  {
    if s != [] {
      var n := |s| - 1;
      var prefix := s[..n];
      IndicesWhereSelects(prefix, p);
      var front := IndicesWhere(prefix, p);
      assert IndicesWhere(s, p) == front + (if p(s[n]) then [n] else []);
      forall i | 0 <= i < n ensures (i in IndicesWhere(s, p) <==> p(s[i])) {
        assert prefix[i] == s[i];
      }
    }
  }

  /** Every element satisfies `p` exactly when every position is selected. */
  lemma {:induction false} IndicesWhereAll<X>(s: seq<X>, p: X -> bool)
    ensures |IndicesWhere(s, p)| == |s| <==> forall i :: 0 <= i < |s| ==> p(s[i])
  {
    if s != [] {
      var n := |s| - 1;
      var prefix := s[..n];
      IndicesWhereAll(prefix, p);
      var front := IndicesWhere(prefix, p);
      var tail: seq<nat> := if p(s[n]) then [n] else [];
      assert IndicesWhere(s, p) == front + tail;
      if forall i :: 0 <= i < |s| ==> p(s[i]) {
        forall i | 0 <= i < n ensures p(prefix[i]) {
          assert prefix[i] == s[i];
        }
        assert |front| == n && |tail| == 1;
      } else {
        var j :| 0 <= j < |s| && !p(s[j]);
        if j < n {
          assert prefix[j] == s[j];
          assert |front| < n;
        } else {
          assert tail == [];
        }
      }
    }
  }

  /** Two sequences whose elements agree position by position select the same positions. */
  lemma {:induction false} IndicesWhereAgree<X, Y>(s: seq<X>, p: X -> bool, t: seq<Y>, q: Y -> bool)
    requires |s| == |t|
    requires forall i :: 0 <= i < |s| ==> p(s[i]) == q(t[i])
    ensures IndicesWhere(s, p) == IndicesWhere(t, q)
  {
    if s != [] {
      var n := |s| - 1;
      IndicesWhereAgree(s[..n], p, t[..n], q);
    }
  }

  /** The positions of the rows that pass the filter. */
  function KeptIndices<T>(rows: seq<EnrichedCommit<T>>): seq<nat> {
    IndicesWhere(rows, (r: EnrichedCommit<T>) => Keep(r.language))
  }

  /** The positions of the commits whose rows pass the filter. */
  function SurvivorIndices<T>(commits: seq<Commit<T>>): seq<nat> {
    IndicesWhere(commits, (c: Commit<T>) => Survives(c))
  }

  /** The filter keeps exactly the rows at KeptIndices, in their order. */
  lemma {:induction false} FilterNoiseSelects<T>(rows: seq<EnrichedCommit<T>>)
    ensures |FilterNoise(rows)| == |KeptIndices(rows)|
    ensures forall k :: 0 <= k < |FilterNoise(rows)| ==> FilterNoise(rows)[k] == rows[KeptIndices(rows)[k]]
  {
    if rows != [] {
      var n := |rows| - 1;
      var prefix := rows[..n];
      FilterNoiseSelects(prefix);
      var kept, idx := FilterNoise(prefix), KeptIndices(prefix);
      var keep := Keep(rows[n].language);
      assert FilterNoise(rows) == kept + (if keep then [rows[n]] else []);
      assert KeptIndices(rows) == idx + (if keep then [n] else []);
      forall k | 0 <= k < |kept|
        ensures FilterNoise(rows)[k] == rows[KeptIndices(rows)[k]]
      {
        assert FilterNoise(rows)[k] == kept[k] == prefix[idx[k]];
      }
    }
  }

  /** The filter keeps every row exactly when every row passes Keep. */
  lemma FilterNoiseKeepsAll<T>(rows: seq<EnrichedCommit<T>>)
    ensures |FilterNoise(rows)| == |rows| <==> forall i :: 0 <= i < |rows| ==> Keep(rows[i].language)
  {
    FilterNoiseSelects(rows);
    IndicesWhereAll(rows, (r: EnrichedCommit<T>) => Keep(r.language));
  }

  /** The derived rows pass the filter where their commits survive. */
  lemma KeptIndicesAreSurvivors<T>(commits: seq<Commit<T>>)
    requires WithDerivedColumns(commits).Success?
    ensures KeptIndices(WithDerivedColumns(commits).value) == SurvivorIndices(commits)
  {
    var rows := WithDerivedColumns(commits).value;
    forall i | 0 <= i < |commits|
      ensures Survives(commits[i]) == Keep(rows[i].language)
    {
      assert rows[i] == Derive(commits[i], ParseYear(commits[i].cveId).value);
    }
    IndicesWhereAgree(commits, (c: Commit<T>) => Survives(c), rows, (r: EnrichedCommit<T>) => Keep(r.language));
  }

  /**
   * On success, the output lists the surviving commits in input order, each
   * with its own cve_id, file and other columns unchanged, its year and its
   * derived extension and language.
   */
  lemma EnrichCommitsDataSurvivors<T>(commits: seq<Commit<T>>)
    requires EnrichCommitsData(commits).Success?
    ensures |EnrichCommitsData(commits).value| == |SurvivorIndices(commits)|
    ensures forall k :: 0 <= k < |EnrichCommitsData(commits).value| ==>
      var row, c := EnrichCommitsData(commits).value[k], commits[SurvivorIndices(commits)[k]];
      && row.cveId == c.cveId && row.file == c.file && row.rest == c.rest
      && Some(row.year) == ParseYear(c.cveId)
      && row.fileExtension == FileExtension(c.file)
      && row.language == Language(FileExtension(c.file))
  {
    var rows := WithDerivedColumns(commits).value;
    FilterNoiseSelects(rows);
    KeptIndicesAreSurvivors(commits);
  }

  /** The surviving positions are increasing and are exactly those of the commits that survive. */
  lemma SurvivorIndicesSelect<T>(commits: seq<Commit<T>>)
    ensures forall k, l :: 0 <= k < l < |SurvivorIndices(commits)| ==> SurvivorIndices(commits)[k] < SurvivorIndices(commits)[l]
    ensures forall i :: 0 <= i < |commits| ==> (i in SurvivorIndices(commits) <==> Survives(commits[i]))
  {
    IndicesWhereSelects(commits, (c: Commit<T>) => Survives(c));
  }

  /** A commit whose language is present and not noise has its row in the output. */
  lemma CleanCommitSurvives<T>(commits: seq<Commit<T>>, i: nat)
    requires EnrichCommitsData(commits).Success?
    requires i < |commits|
    requires Language(FileExtension(commits[i].file)).Some?
    requires Language(FileExtension(commits[i].file)).value !in NoiseLanguages
    ensures exists k :: (0 <= k < |EnrichCommitsData(commits).value| &&
                         EnrichCommitsData(commits).value[k] == Derive(commits[i], ParseYear(commits[i].cveId).value))
  {
    var idx := SurvivorIndices(commits);
    EnrichCommitsDataSurvivors(commits);
    SurvivorIndicesSelect(commits);
    assert Survives(commits[i]);
    var k :| 0 <= k < |idx| && idx[k] == i;
    assert EnrichCommitsData(commits).value[k] == Derive(commits[i], ParseYear(commits[i].cveId).value);
  }

  /** No output row has a noise language or an extension that gives one. */
  lemma EnrichCommitsDataDropsNoise<T>(commits: seq<Commit<T>>)
    requires EnrichCommitsData(commits).Success?
    ensures forall row :: row in EnrichCommitsData(commits).value ==>
      && (row.language.Some? ==> row.language.value !in NoiseLanguages)
      && (row.fileExtension.Some? ==> row.fileExtension.value !in NoiseExtensions)
  {
    var out := EnrichCommitsData(commits).value;
    EnrichCommitsDataSurvivors(commits);
    forall row | row in out
      ensures row.language.Some? ==> row.language.value !in NoiseLanguages
      ensures row.fileExtension.Some? ==> row.fileExtension.value !in NoiseExtensions
    {
      if row.fileExtension.Some? {
        NoiseExtensionIff(row.fileExtension.value);
      }
    }
  }

  /** The output is as long as the input exactly when every row survives the filter. */
  lemma EnrichCommitsDataLength<T>(commits: seq<Commit<T>>)
    requires EnrichCommitsData(commits).Success?
    ensures |EnrichCommitsData(commits).value| == |commits| <==>
            forall i :: 0 <= i < |commits| ==> Survives(commits[i])
  {
    EnrichCommitsDataSurvivors(commits);
    IndicesWhereAll(commits, (c: Commit<T>) => Survives(c));
  }

  /** Filtering a filtered table changes nothing. */
  lemma {:induction false} FilterNoiseIdempotent<T>(rows: seq<EnrichedCommit<T>>)
    ensures FilterNoise(FilterNoise(rows)) == FilterNoise(rows)
  {
    if rows != [] {
      var n := |rows| - 1;
      var head := FilterNoise(rows[..n]);
      FilterNoiseIdempotent(rows[..n]);
      if Keep(rows[n].language) {
        var kept := head + [rows[n]];
        assert FilterNoise(rows) == kept;
        assert kept[..|kept| - 1] == head;
        assert FilterNoise(kept) == FilterNoise(head) + [rows[n]];
      } else {
        assert FilterNoise(rows) == head;
      }
    }
  }
}
