/**
  `ManifestHandler`: the current and the old manifest, each a list of entries that
  every read of its property reloads from disk and appends to without clearing it.

  The file system is an input: `ManifestFile` is what the manifest path held when it
  was read. The path lookup, the locks and the log line are not part of this model.
*/
module ManifestHandlers {
  import opened Wrappers
  import opened ManifestEntries

  /** The manifest file as the loader finds it: absent (`File.Exists` is false),
      present but failing with an `IOException` in `File.ReadAllLines` (which reads
      the whole file before any line is parsed), or read as a list of lines. */
  datatype ManifestFile = Missing | Unreadable | Present(lines: seq<string>)

  /** The line parser of the loaders: `ManifestEntry.TryParse` on a line of the file
      (never null, since `File.ReadAllLines` yields no null lines). */
  function LineParser(clean: string -> string, host: Host): string -> ParseOutcome {
    line => TryParse(Some(line), clean, host)
  }

  /** The entries of the lines that `parse` accepts, in line order; the others are dropped. */
  function ParseAll(lines: seq<string>, parse: string -> ParseOutcome): seq<ManifestEntry> {
    if |lines| == 0 then []
    else ParseAll(lines[..|lines| - 1], parse) + LineEntries(lines[|lines| - 1], parse)
  }

  /** What one line adds: its entry when it parses, nothing otherwise. */
  function LineEntries(line: string, parse: string -> ParseOutcome): seq<ManifestEntry> {
    if parse(line).success then [parse(line).entry] else []
  }

  /** What one load appends to its list: nothing unless the file could be read. */
  function Loaded(file: ManifestFile, clean: string -> string, host: Host): seq<ManifestEntry> {
    match file
    case Present(lines) => ParseAll(lines, LineParser(clean, host))
    case _ => []
  }

  class ManifestHandler {
    var manifest: seq<ManifestEntry>
    var oldManifest: seq<ManifestEntry>

    /** `new ManifestHandler()`: both lists start empty. */
    constructor ()
      ensures manifest == [] && oldManifest == []
    {
      manifest := [];
      oldManifest := [];
    }

    /** `LoadManifest()`: appends the entries of the current manifest file to
        `manifest`; `oldManifest` is left alone. */
    method LoadManifest(file: ManifestFile, clean: string -> string, host: Host)
      modifies this`manifest
      ensures manifest == old(manifest) + Loaded(file, clean, host)
      ensures oldManifest == old(oldManifest)
    {
      if file.Present? {
        var rawManifest := file.lines;
        for i := 0 to |rawManifest|
          invariant manifest == old(manifest) + ParseAll(rawManifest[..i], LineParser(clean, host))
        {
          var outcome := TryParse(Some(rawManifest[i]), clean, host);
          ghost var added := if outcome.success then [outcome.entry] else [];
          assert ParseAll(rawManifest[..i + 1], LineParser(clean, host)) ==
                 ParseAll(rawManifest[..i], LineParser(clean, host)) + added by {
            ParseAllStep(rawManifest, i, LineParser(clean, host));
          }
          AppendAssoc(old(manifest), ParseAll(rawManifest[..i], LineParser(clean, host)), added);
          if outcome.success {
            manifest := manifest + [outcome.entry];
          }
        }
        assert rawManifest[..|rawManifest|] == rawManifest;
      }
    }

    /** `LoadOldManifest()`: appends the entries of the old manifest file to
        `oldManifest`; `manifest` is left alone. */
    method LoadOldManifest(file: ManifestFile, clean: string -> string, host: Host)
      modifies this`oldManifest
      ensures oldManifest == old(oldManifest) + Loaded(file, clean, host)
      ensures manifest == old(manifest)
    {
      if file.Present? {
        var rawOldManifest := file.lines;
        for i := 0 to |rawOldManifest|
          invariant oldManifest == old(oldManifest) + ParseAll(rawOldManifest[..i], LineParser(clean, host))
        {
          var outcome := TryParse(Some(rawOldManifest[i]), clean, host);
          ghost var added := if outcome.success then [outcome.entry] else [];
          assert ParseAll(rawOldManifest[..i + 1], LineParser(clean, host)) ==
                 ParseAll(rawOldManifest[..i], LineParser(clean, host)) + added by {
            ParseAllStep(rawOldManifest, i, LineParser(clean, host));
          }
          AppendAssoc(old(oldManifest), ParseAll(rawOldManifest[..i], LineParser(clean, host)), added);
          if outcome.success {
            oldManifest := oldManifest + [outcome.entry];
          }
        }
        assert rawOldManifest[..|rawOldManifest|] == rawOldManifest;
      }
    }

    /** The `Manifest` getter: loads, then returns the whole accumulated list. */
    method Manifest(file: ManifestFile, clean: string -> string, host: Host) returns (entries: seq<ManifestEntry>)
      modifies this`manifest
      ensures entries == manifest == old(manifest) + Loaded(file, clean, host)
      ensures oldManifest == old(oldManifest)
    {
      LoadManifest(file, clean, host);
      entries := manifest;
    }

    /** The `OldManifest` getter: loads, then returns the whole accumulated list. */
    method OldManifest(file: ManifestFile, clean: string -> string, host: Host) returns (entries: seq<ManifestEntry>)
      modifies this`oldManifest
      ensures entries == oldManifest == old(oldManifest) + Loaded(file, clean, host)
      ensures manifest == old(manifest)
    {
      LoadOldManifest(file, clean, host);
      entries := oldManifest;
    }
  }

  /** Reading the `Manifest` property twice on an unchanged file returns the file's
      entries twice over: the list is never cleared. */
  method ReadTwice(h: ManifestHandler, file: ManifestFile, clean: string -> string, host: Host)
    returns (first: seq<ManifestEntry>, second: seq<ManifestEntry>)
    modifies h`manifest
    ensures first == old(h.manifest) + Loaded(file, clean, host)
    ensures second == first + Loaded(file, clean, host)
    ensures h.manifest == second
    ensures h.oldManifest == old(h.oldManifest)
  {
    first := h.Manifest(file, clean, host);
    second := h.Manifest(file, clean, host);
  }

  /** One more line read adds that line's entries at the end. */
  lemma ParseAllStep(lines: seq<string>, i: nat, parse: string -> ParseOutcome)
    requires i < |lines|
    ensures ParseAll(lines[..i + 1], parse) == ParseAll(lines[..i], parse) + LineEntries(lines[i], parse)
  {
    assert lines[..i + 1][..i] == lines[..i];
  }

  /** Loading a file behind a split point is loading each part in turn. */
  lemma {:induction false} ParseAllAppend(a: seq<string>, b: seq<string>, parse: string -> ParseOutcome)
    ensures ParseAll(a + b, parse) == ParseAll(a, parse) + ParseAll(b, parse)
    decreases |b|
  {
    if |b| == 0 {
      assert a + b == a;
    } else {
      var ab := a + b;
      var last := b[|b| - 1];
      var front := b[..|b| - 1];
      assert ab[..|ab| - 1] == a + front;
      assert ab[|ab| - 1] == last;
      ParseAllAppend(a, front, parse);
      calc {
        ParseAll(ab, parse);
        ParseAll(a + front, parse) + LineEntries(last, parse);
        ParseAll(a, parse) + ParseAll(front, parse) + LineEntries(last, parse);
        ParseAll(a, parse) + ParseAll(b, parse);
      }
    }
  }

  /** A line that does not parse contributes nothing: it is skipped, silently. */
  lemma SkipsMalformedLine(a: seq<string>, line: string, b: seq<string>, parse: string -> ParseOutcome)
    requires !parse(line).success
    ensures ParseAll(a + [line] + b, parse) == ParseAll(a, parse) + ParseAll(b, parse)
  {
    assert ParseAll(a + [line], parse) == ParseAll(a, parse) by {
      ParseAllAppend(a, [line], parse);
      assert [line][..0] == [];
      assert ParseAll([line], parse) == [];
    }
    ParseAllAppend(a + [line], b, parse);
  }

  /** Every loaded entry is the successful parse of some line of the file. */
  lemma {:induction false} ParseAllSound(lines: seq<string>, parse: string -> ParseOutcome, k: nat)
    requires k < |ParseAll(lines, parse)|
    ensures exists i :: 0 <= i < |lines| &&
              parse(lines[i]) == ParseOutcome(true, ParseAll(lines, parse)[k])
    decreases |lines|
  {
    var init := lines[..|lines| - 1];
    var outcome := parse(lines[|lines| - 1]);
    if k < |ParseAll(init, parse)| {
      ParseAllSound(init, parse, k);
      var i :| 0 <= i < |init| && parse(init[i]) == ParseOutcome(true, ParseAll(init, parse)[k]);
      assert lines[i] == init[i];
    } else {
      assert parse(lines[|lines| - 1]) == ParseOutcome(true, ParseAll(lines, parse)[k]);
    }
  }

  /** No line is lost: the entry of every line that parses is among the loaded ones. */
  lemma {:induction false} ParseAllComplete(lines: seq<string>, parse: string -> ParseOutcome, i: nat)
    requires i < |lines| && parse(lines[i]).success
    ensures parse(lines[i]).entry in ParseAll(lines, parse)
    decreases |lines|
  {
    var init := lines[..|lines| - 1];
    if i < |lines| - 1 {
      assert init[i] == lines[i];
      ParseAllComplete(init, parse, i);
    }
  }

  /** There are never more entries than lines. */
  lemma {:induction false} ParseAllLength(lines: seq<string>, parse: string -> ParseOutcome)
    ensures |ParseAll(lines, parse)| <= |lines|
    decreases |lines|
  {
    if |lines| > 0 {
      ParseAllLength(lines[..|lines| - 1], parse);
    }
  }

  /** The text of every entry, one per line. */
  function FormatAll(entries: seq<ManifestEntry>): (lines: seq<string>)
    ensures |lines| == |entries|
  {
    if |entries| == 0 then [] else FormatAll(entries[..|entries| - 1]) + [Format(entries[|entries| - 1])]
  }

  /** Concatenation is associative. */
  lemma AppendAssoc<T>(a: seq<T>, b: seq<T>, c: seq<T>)
    ensures a + b + c == a + (b + c)
  {
  }

  /** A non-empty sequence is its front followed by its last element. */
  lemma InitPlusLast<T>(s: seq<T>)
    requires |s| > 0
    ensures s[..|s| - 1] + [s[|s| - 1]] == s
  {
  }

  /** The line written for a reproducible entry loads as that entry alone. */
  lemma FormattedLineEntries(e: ManifestEntry, clean: string -> string, host: Host)
    requires Reproducible(e, clean, host)
    ensures LineEntries(Format(e), LineParser(clean, host)) == [e]
  {
    RoundTrip(e, clean, host);
  }

  /** A manifest written out with `ToString`, one entry per line, loads back as the
      same entries in the same order, under the conditions of the entry round trip. */
  lemma {:induction false} LoadFormatted(entries: seq<ManifestEntry>, clean: string -> string, host: Host)
    requires forall i :: 0 <= i < |entries| ==> Reproducible(entries[i], clean, host)
    ensures Loaded(Present(FormatAll(entries)), clean, host) == entries
    decreases |entries|
  {
    if |entries| > 0 {
      var init := entries[..|entries| - 1];
      var last := entries[|entries| - 1];
      var lines := FormatAll(entries);
      assert lines[..|lines| - 1] == FormatAll(init) && lines[|lines| - 1] == Format(last);
      LoadFormatted(init, clean, host);
      FormattedLineEntries(last, clean, host);
      InitPlusLast(entries);
    }
  }
}
