/** Entry building: one `{loc, lastmod}` record per discovered file, in discovery order.
    `stat(file).mtime.toISOString()` is replaced by a map from each readable file to its
    ISO-8601 timestamp text; a file missing from the map is one whose `stat` fails. */
module Entries {
  import opened Text
  import opened Urls

  datatype UrlEntry = UrlEntry(loc: string, lastmod: string)

  /** Why a run aborts: `stat` failed on this file (it vanished or cannot be read). */
  datatype Error = ReadError(path: string)

  datatype Result<T> = Ok(value: T) | Err(error: Error)

  /** `getLastModified`: the date part of the timestamp, the text before its first "T". */
  function LastModified(iso: string): (date: string)
    ensures date <= iso && 'T' !in date
  {
    BeforeFirst(iso, 'T')
  }

  /** For a timestamp `<date>T<time>` the date is exactly what is kept. */
  lemma LastModifiedOfTimestamp(date: string, time: string)
    requires 'T' !in date
    ensures LastModified(date + "T" + time) == date
  {
    BeforeFirstSplit(date, 'T', time);
  }

  /** The record the loop pushes for one file. */
  function EntryFor(file: string, iso: string): (e: UrlEntry)
  {
    UrlEntry(MdxPathToUrl(file), LastModified(iso))
  }

  /** The loop of `generateSitemap` over the discovered files, as a value: every file gives one
      record, in order, unless a `stat` fails, which aborts with the first file that failed. */
  function UrlEntries(files: seq<string>, stamps: map<string, string>): Result<seq<UrlEntry>>
  {
    if files == [] then Ok([])
    else if files[0] !in stamps then Err(ReadError(files[0]))
    else
      match UrlEntries(files[1..], stamps)
      case Err(e) => Err(e)
      case Ok(rest) => Ok([EntryFor(files[0], stamps[files[0]])] + rest)
  }

  /** Without a failing `stat` there is exactly one record per file, in discovery order, with
      `loc = mdxPathToUrl(file)` and the file's date. */
  lemma {:induction false} UrlEntriesOk(files: seq<string>, stamps: map<string, string>)
    requires forall f :: f in files ==> f in stamps
    ensures UrlEntries(files, stamps).Ok?
    ensures |UrlEntries(files, stamps).value| == |files|
    ensures forall i :: 0 <= i < |files| ==>
      UrlEntries(files, stamps).value[i] == EntryFor(files[i], stamps[files[i]])
  {
    if files != [] {
      assert files[0] in files;
      assert forall f :: f in files[1..] ==> f in files;
      UrlEntriesOk(files[1..], stamps);
      var head := EntryFor(files[0], stamps[files[0]]);
      var rest := UrlEntries(files[1..], stamps).value;
      assert UrlEntries(files, stamps) == Ok([head] + rest);
      forall i | 0 <= i < |files|
        ensures ([head] + rest)[i] == EntryFor(files[i], stamps[files[i]])
      {
        if i > 0 {
          assert ([head] + rest)[i] == rest[i - 1];
          assert files[1..][i - 1] == files[i];
        }
      }
    }
  }

  /** A file whose `stat` fails aborts the run, reporting the first such file. */
  lemma {:induction false} UrlEntriesErr(files: seq<string>, stamps: map<string, string>, k: nat)
    requires k < |files| && files[k] !in stamps
    requires forall j :: 0 <= j < k ==> files[j] in stamps
    ensures UrlEntries(files, stamps) == Err(ReadError(files[k]))
  {
    if k > 0 {
      UrlEntriesErr(files[1..], stamps, k - 1);
    }
  }

  /** Processing one more file extends the records, or reports that file's failure. */
  lemma {:induction false} UrlEntriesSnoc(files: seq<string>, f: string, stamps: map<string, string>)
    requires UrlEntries(files, stamps).Ok?
    ensures UrlEntries(files + [f], stamps) ==
      if f in stamps then Ok(UrlEntries(files, stamps).value + [EntryFor(f, stamps[f])])
      else Err(ReadError(f))
  {
    if files == [] {
      assert files + [f] == [f] && [f][1..] == [];
      if f in stamps {
        var e := EntryFor(f, stamps[f]);
        assert UrlEntries([f], stamps) == Ok([e] + []);
        assert UrlEntries(files, stamps).value == [];
        assert [e] + [] == [e] == [] + [e];
      }
    } else {
      assert (files + [f])[0] == files[0] && (files + [f])[1..] == files[1..] + [f];
      UrlEntriesSnoc(files[1..], f, stamps);
      var head := [EntryFor(files[0], stamps[files[0]])];
      var rest := UrlEntries(files[1..], stamps).value;
      if f in stamps {
        assert head + (rest + [EntryFor(f, stamps[f])]) == (head + rest) + [EntryFor(f, stamps[f])];
      }
    }
  }

  /** The loop as the source runs it: push a record per file, stop at the first failing
      `stat`. */
  method BuildUrls(files: seq<string>, stamps: map<string, string>) returns (r: Result<seq<UrlEntry>>)
    ensures r == UrlEntries(files, stamps)
  {
    var urls: seq<UrlEntry> := [];
    for i := 0 to |files|
      invariant UrlEntries(files[..i], stamps) == Ok(urls)
    {
      var file := files[i];
      UrlEntriesSnoc(files[..i], file, stamps);
      assert files[..i + 1] == files[..i] + [file];
      if file !in stamps {
        r := Err(ReadError(file));
        UrlEntriesPrefixErr(files, i + 1, stamps);
        return;
      }
      var url := MdxPathToUrl(file);
      var lastmod := LastModified(stamps[file]);
      urls := urls + [UrlEntry(url, lastmod)];
    }
    assert files[..|files|] == files;
    r := Ok(urls);
  }

  /** A failure among the first `n` files is the failure of the whole run. */
  lemma {:induction false} UrlEntriesPrefixErr(files: seq<string>, n: nat, stamps: map<string, string>)
    requires n <= |files| && UrlEntries(files[..n], stamps).Err?
    ensures UrlEntries(files, stamps) == UrlEntries(files[..n], stamps)
  {
    if files[0] in stamps {
      assert files[..n][1..] == files[1..][..n - 1];
      UrlEntriesPrefixErr(files[1..], n - 1, stamps);
    }
  }
}
