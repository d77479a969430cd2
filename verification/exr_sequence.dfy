/**
 The sequence driver `process_exr_sequence`: list the directory, keep the
 `.exr` files, put them in frame order, build one record per file and hand
 the filename-to-record report to the JSON writer. The directory listing,
 the existence check and the file contents are inputs: `entries` is what
 `os.listdir` returned together with each entry's `os.path.isfile` answer,
 and `decode` gives what the decoder yields for a path.
 */
module ExrSequence {
  import opened Outcomes
  import opened Text
  import opened FrameOrder
  import opened ExrRecord

  datatype DirEntry = DirEntry(name: string, isFile: bool)

  /** get_meta_data.py:72-73: a regular file whose lower-cased name ends in `.exr`. */
  predicate IsExrEntry(e: DirEntry) {
    e.isFile && EndsWithIgnoringCase(e.name, ".exr")
  }

  /** The list comprehension of get_meta_data.py:71-73. */
  function ExrNames(entries: seq<DirEntry>): (names: seq<string>)
    ensures |names| <= |entries|
    ensures forall n :: n in names <==> exists e :: e in entries && IsExrEntry(e) && e.name == n
  {
    if |entries| == 0 then []
    else
      var rest := ExrNames(entries[1..]);
      assert forall e :: e in entries <==> e == entries[0] || e in entries[1..];
      (if IsExrEntry(entries[0]) then [entries[0].name] else []) + rest
  }

  /** The filter keeps relative order: it distributes over concatenation. */
  lemma {:induction false} ExrNamesAppend(a: seq<DirEntry>, b: seq<DirEntry>)
    ensures ExrNames(a + b) == ExrNames(a) + ExrNames(b)
    decreases |a|
  {
    if |a| == 0 {
      assert a + b == b;
    } else {
      assert (a + b)[0] == a[0];
      assert (a + b)[1..] == a[1..] + b;
      ExrNamesAppend(a[1..], b);
    }
  }

  /** A single entry is kept exactly when it passes the test. */
  lemma ExrNamesSingle(e: DirEntry)
    ensures ExrNames([e]) == if IsExrEntry(e) then [e.name] else []
  {
    assert [e][1..] == [];
  }

  lemma UpperCaseExtensionAccepted(stem: string)
    ensures IsExrEntry(DirEntry(stem + ".EXR", true))
  {
    LowerEndsWith(stem, ".EXR");
    assert Lower(".EXR") == ".exr";
  }

  lemma OtherExtensionRejected(stem: string)
    ensures !IsExrEntry(DirEntry(stem + ".exr.txt", true))
  {
    assert stem + ".exr.txt" == (stem + ".exr") + ".txt";
    LowerEndsWith(stem + ".exr", ".txt");
    var l := Lower(stem + ".exr.txt");
    assert Lower(".txt") == ".txt";
    assert l[|l| - 3] == 't' by {
      assert l[|l| - 4..][1] == l[|l| - 3];
    }
    ThreeFromEndRulesOut(l, ".exr");
  }

  /**
   The test is case-insensitive in the extension, looks at the last suffix
   only and skips anything that is not a regular file.
   */
  lemma ExrFilterExamples(stem: string)
    ensures ExrNames([DirEntry(stem + ".EXR", true), DirEntry(stem + ".exr", false),
                      DirEntry(stem + ".exr.txt", true)]) == [stem + ".EXR"]
  {
    UpperCaseExtensionAccepted(stem);
    OtherExtensionRejected(stem);
    KeepFirstOfThree(DirEntry(stem + ".EXR", true), DirEntry(stem + ".exr", false),
                     DirEntry(stem + ".exr.txt", true));
  }

  lemma KeepFirstOfThree(x: DirEntry, y: DirEntry, z: DirEntry)
    requires IsExrEntry(x) && !IsExrEntry(y) && !IsExrEntry(z)
    ensures ExrNames([x, y, z]) == [x.name]
  {
    assert [x, y, z] == [x] + [y] + [z];
    ExrNamesAppend([x] + [y], [z]);
    ExrNamesAppend([x], [y]);
    ExrNamesSingle(x);
    ExrNamesSingle(y);
    ExrNamesSingle(z);
  }

  predicate Distinct<T(==)>(s: seq<T>) {
    forall i, j :: 0 <= i < j < |s| ==> s[i] != s[j]
  }

  /** Listing entry names are distinct, as `os.listdir` returns them. */
  predicate DistinctNames(entries: seq<DirEntry>) {
    forall i, j :: 0 <= i < j < |entries| ==> entries[i].name != entries[j].name
  }

  lemma {:induction false} ExrNamesDistinct(entries: seq<DirEntry>)
    requires DistinctNames(entries)
    ensures Distinct(ExrNames(entries))
    decreases |entries|
  {
    if |entries| > 0 {
      var rest := entries[1..];
      assert DistinctNames(rest) by {
        forall i, j | 0 <= i < j < |rest| ensures rest[i].name != rest[j].name {
          assert rest[i] == entries[i + 1] && rest[j] == entries[j + 1];
        }
      }
      ExrNamesDistinct(rest);
      if IsExrEntry(entries[0]) {
        forall n | n in ExrNames(rest) ensures n != entries[0].name {
          var e :| e in rest && IsExrEntry(e) && e.name == n;
          var k :| 0 <= k < |rest| && rest[k] == e;
          assert entries[k + 1] == e;
        }
        var names := ExrNames(entries);
        assert names == [entries[0].name] + ExrNames(rest);
        forall i, j | 0 <= i < j < |names| ensures names[i] != names[j] {
          if i == 0 {
            assert names[j] in ExrNames(rest);
          } else {
            assert names[i] == ExrNames(rest)[i - 1] && names[j] == ExrNames(rest)[j - 1];
          }
        }
      }
    }
  }

  /** A list without repeats is one whose multiset has no element twice. */
  lemma {:induction false} DistinctMultiplicity<T>(s: seq<T>)
    ensures Distinct(s) <==> forall x :: multiset(s)[x] <= 1
    decreases |s|
  {
    if |s| > 0 {
      var h, t := s[0], s[1..];
      assert s == [h] + t;
      DistinctMultiplicity(t);
      if Distinct(s) {
        assert Distinct(t) by {
          forall i, j | 0 <= i < j < |t| ensures t[i] != t[j] {
            assert t[i] == s[i + 1] && t[j] == s[j + 1];
          }
        }
        assert h !in t by {
          forall k | 0 <= k < |t| ensures t[k] != h {
            assert t[k] == s[k + 1];
          }
        }
      }
      if forall x :: multiset(s)[x] <= 1 {
        assert forall x :: multiset(t)[x] <= multiset(s)[x];
        assert multiset(t)[h] == 0 by {
          assert multiset(s)[h] == multiset(t)[h] + 1;
        }
        forall i, j | 0 <= i < j < |s| ensures s[i] != s[j] {
          if i == 0 {
            assert s[j] == t[j - 1];
            assert t[j - 1] in multiset(t);
          } else {
            assert s[i] == t[i - 1] && s[j] == t[j - 1];
          }
        }
      }
    }
  }

  /** A report in the order keys were first stored, as a Python dict keeps it. */
  datatype Report = Report(order: seq<string>, records: map<string, Record>)

  /** `report[name] = record` */
  function Store(report: Report, name: string, record: Record): (r: Report)
    ensures report.order <= r.order
    ensures name in r.records && r.records[name] == record
    ensures forall k :: k != name ==> (k in r.records <==> k in report.records)
  {
    if name in report.records
    then Report(report.order, report.records[name := record])
    else Report(report.order + [name], report.records[name := record])
  }

  /** The keys in `order` are exactly the stored ones, each listed once. */
  ghost predicate Consistent(report: Report) {
    && Distinct(report.order)
    && forall k :: k in report.order <==> k in report.records
  }

  /** Storing keeps the report consistent and changes only the entry it stores. */
  lemma StoreEffect(report: Report, name: string, record: Record)
    requires Consistent(report)
    ensures var r := Store(report, name, record);
            && Consistent(r)
            && (forall k :: k in r.records <==> k in report.records || k == name)
            && r.records[name] == record
            && (forall k :: k in report.records && k != name ==> r.records[k] == report.records[k])
            && (name !in report.records ==> r.order == report.order + [name])
  {
    var r := Store(report, name, record);
    if name !in report.records {
      assert name !in report.order;
      assert Distinct(r.order) by {
        forall i, j | 0 <= i < j < |r.order| ensures r.order[i] != r.order[j] {
          if j == |report.order| {
            assert r.order[i] == report.order[i];
          } else {
            assert r.order[i] == report.order[i] && r.order[j] == report.order[j];
          }
        }
      }
    }
  }

  /** The record the report holds for a file name. */
  function RecordFor(dir: string, name: string, decode: string -> Decoded): Record {
    ExtractMetadata(Join(dir, name), decode(Join(dir, name)))
  }

  /** The report after storing `recordOf(n)` for each name `n` of `names[..i]`. */
  ghost predicate ReportUpTo(report: Report, names: seq<string>, i: int, recordOf: string -> Record)
    requires 0 <= i <= |names|
  {
    && Consistent(report)
    && (forall k :: k in report.records <==> k in names[..i])
    && (forall k :: k in report.records ==> report.records[k] == recordOf(k))
    && (Distinct(names) ==> report.order == names[..i])
  }

  /** Storing the record of `names[i]` extends the report by one name. */
  lemma StoreStep(report: Report, names: seq<string>, i: int, recordOf: string -> Record)
    requires 0 <= i < |names| && ReportUpTo(report, names, i, recordOf)
    ensures ReportUpTo(Store(report, names[i], recordOf(names[i])), names, i + 1, recordOf)
  {
    var name := names[i];
    if Distinct(names) {
      assert name !in names[..i] by {
        forall k | 0 <= k < i ensures names[..i][k] != name {
          assert names[..i][k] == names[k];
        }
      }
    }
    assert names[..i + 1] == names[..i] + [name];
    StoreEffect(report, name, recordOf(name));
  }

  /**
   The report loop of get_meta_data.py:83-89. Each file's record depends on
   that file alone, so a failing file yields its error record and the files
   after it are still processed.
   */
  method BuildReport(dir: string, names: seq<string>, decode: string -> Decoded) returns (report: Report)
    ensures Consistent(report)
    ensures forall k :: k in report.records <==> k in names
    ensures forall k :: k in report.records ==> report.records[k] == RecordFor(dir, k, decode)
    ensures Distinct(names) ==> report.order == names
  {
    report := Report([], map[]);
    var i := 0;
    while i < |names|
      invariant 0 <= i <= |names|
      invariant ReportUpTo(report, names, i, k => RecordFor(dir, k, decode))
    {
      var name := names[i];
      var record := ExtractMetadata(Join(dir, name), decode(Join(dir, name)));
      StoreStep(report, names, i, k => RecordFor(dir, k, decode));
      report := Store(report, name, record);
      i := i + 1;
    }
    assert names[..i] == names;
  }

  /** What `os.listdir` gives: the directory's entries, or the message of the error it raises. */
  datatype Listing = ListingFailed(reason: string) | Listed(entries: seq<DirEntry>)

  /** What a run ends with. */
  datatype RunOutcome =
    | MissingPath(message: string)
    | ListingRaised(reason: string)
    | NoExrFiles(message: string)
    | SortRaised
    | OpenRaised(reason: string)
    | DumpRaised(report: Report)
    | Written(outputFile: string, report: Report, message: string)

  /**
   process_exr_sequence (get_meta_data.py:63-95). `pathExists` is the answer
   of `os.path.exists`, which also holds for a plain file; `os.listdir` then
   raises, uncaught. `SortRaised` is the uncaught `TypeError` of comparing an
   `int` key with a `str` key. `openError` is what `open(output_file, 'w')`
   raises once every file has been read, or `None` when it opens the file;
   `OpenRaised` is that uncaught error. `DumpRaised` is the `TypeError` of
   `json.dump` meeting a value it cannot encode, after the output file was
   opened. Only `Written` prints the closing message.
   */
  method ProcessSequence(pathExists: bool, dir: string, listing: Listing,
                         decode: string -> Decoded, outputFile: string,
                         openError: Option<string>)
    returns (out: RunOutcome)
    ensures out.MissingPath? <==> !pathExists
    ensures out.MissingPath? ==> out.message == "Error: Path '" + dir + "' does not exist"
    ensures out.ListingRaised? <==> pathExists && listing.ListingFailed?
    ensures out.ListingRaised? ==> out.reason == listing.reason
    ensures out.NoExrFiles? <==> pathExists && listing.Listed? && ExrNames(listing.entries) == []
    ensures out.NoExrFiles? ==> out.message == "No EXR files found in " + dir
    ensures out.SortRaised? <==> pathExists && listing.Listed? && MixedKeys(ExrNames(listing.entries))
    // the output file is opened only after every kept file has been read
    ensures out.OpenRaised? <==>
              && pathExists && listing.Listed? && ExrNames(listing.entries) != []
              && !MixedKeys(ExrNames(listing.entries)) && openError.Some?
    ensures out.OpenRaised? ==> out.reason == openError.value
    // the report handed to json.dump: one record per kept name, in frame order
    ensures out.DumpRaised? || out.Written? ==>
              && listing.Listed?
              && SortByKey(ExrNames(listing.entries)).Some?
              && Consistent(out.report)
              && (forall k :: k in out.report.records <==> k in ExrNames(listing.entries))
              && (forall k :: k in out.report.records ==>
                    out.report.records[k] == RecordFor(dir, k, decode))
              && (DistinctNames(listing.entries) ==>
                    out.report.order == SortByKey(ExrNames(listing.entries)).value)
    // the dump fails exactly when some record holds an object JSON cannot encode
    ensures out.DumpRaised? <==>
              && pathExists && listing.Listed? && !MixedKeys(ExrNames(listing.entries))
              && openError.None?
              && exists k :: k in ExrNames(listing.entries) && !RecordEncodable(RecordFor(dir, k, decode))
    ensures out.Written? <==>
              && pathExists && listing.Listed? && ExrNames(listing.entries) != []
              && !MixedKeys(ExrNames(listing.entries)) && openError.None?
              && forall k :: k in ExrNames(listing.entries) ==> RecordEncodable(RecordFor(dir, k, decode))
    // so every file read for the written report had an empty channel table
    // and no other value JSON cannot encode
    ensures out.Written? ==>
              && openError.None?
              && out.outputFile == outputFile
              && out.message == "Metadata written to " + outputFile
              && forall k :: k in out.report.records && decode(Join(dir, k)).Opened? &&
                               WellFormed(decode(Join(dir, k)).header) ==>
                   && HeaderEncodable(decode(Join(dir, k)).header)
                   && |ChannelTable(decode(Join(dir, k)).header)| == 0
  {
    if !pathExists {
      return MissingPath("Error: Path '" + dir + "' does not exist");
    }
    if listing.ListingFailed? {
      return ListingRaised(listing.reason);
    }
    var entries := listing.entries;
    var names := ExrNames(entries);
    if names == [] {
      return NoExrFiles("No EXR files found in " + dir);
    }
    var sorted := SortByKey(names);
    if sorted.None? {
      return SortRaised;
    }
    var ordered := sorted.value;
    assert forall k :: k in ordered <==> k in names by {
      forall k ensures k in ordered <==> k in names {
        assert k in ordered <==> k in multiset(ordered);
        assert k in names <==> k in multiset(names);
      }
    }
    if DistinctNames(entries) {
      ExrNamesDistinct(entries);
      DistinctMultiplicity(names);
      DistinctMultiplicity(ordered);
    }
    var report := BuildReport(dir, ordered, decode);
    if openError.Some? {
      return OpenRaised(openError.value);
    }
    if exists k :: k in report.records && !RecordEncodable(report.records[k]) {
      return DumpRaised(report);
    }
    forall k | k in report.records && decode(Join(dir, k)).Opened? &&
               WellFormed(decode(Join(dir, k)).header)
      ensures HeaderEncodable(decode(Join(dir, k)).header)
      ensures |ChannelTable(decode(Join(dir, k)).header)| == 0
    {
      var h := decode(Join(dir, k)).header;
      EncodableExactly(Join(dir, k), Opened(h));
      if |ChannelTable(h)| > 0 {
        ChannelsBlockDump(Join(dir, k), h);
      }
    }
    out := Written(outputFile, report, "Metadata written to " + outputFile);
  }
}
