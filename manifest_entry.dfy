/**
  One record of a manifest file, `<relative path>:<hash>:<size>`, with the
  parser `ManifestEntry.TryParse` and the formatter `ManifestEntry.ToString`.

  Two things the parser depends on are parameters here: the sanitiser
  `Utilities.Clean`, whose code is not part of this model, is `clean`; the host's
  `Path.DirectorySeparatorChar` and `Path.AltDirectorySeparatorChar` are `host`.
*/
module ManifestEntries {
  import opened Wrappers
  import opened Text
  import opened LongText

  /** A file of the tree: its path relative to the tree's root, its content hash
      (an opaque token) and its size in bytes. */
  datatype ManifestEntry = ManifestEntry(relativePath: string, hash: string, size: Long)

  /** The two directory separators of the host the launcher runs on. */
  datatype Host = Host(directorySeparator: char, altDirectorySeparator: char)

  /** What `TryParse(rawInput, out entry)` returns, and what it leaves in `entry`. */
  datatype ParseOutcome = ParseOutcome(success: bool, entry: ManifestEntry)

  /** The field delimiter of a record. */
  const Delimiter: char := ':'

  /** `new ManifestEntry()`: the empty record. */
  function DefaultEntry(): (e: ManifestEntry)
    ensures e.relativePath == "" && e.hash == "" && e.size == 0
    ensures Format(e) == "::0"
  {
    ManifestEntry("", "", 0)
  }

  /** `entry.ToString()`: the three fields separated by `:`. When neither the path
      nor the hash holds a `:`, splitting the text gives back the three fields. */
  function Format(e: ManifestEntry): (line: string)
    ensures ':' !in e.relativePath && ':' !in e.hash ==>
              Split(line, Delimiter) == [e.relativePath, e.hash, FormatLong(e.size)]
  {
    var line := e.relativePath + [Delimiter] + e.hash + [Delimiter] + FormatLong(e.size);
    if ':' !in e.relativePath && ':' !in e.hash then
      SplitThree(e.relativePath, e.hash, FormatLong(e.size));
      line
    else
      line
  }

  /** `ManifestEntry.TryParse(rawInput, out entry)`; `None` stands for a null string. */
  function TryParse(rawInput: Option<string>, clean: string -> string, host: Host): (r: ParseOutcome)
    ensures r.success ==> rawInput.Some? && rawInput.value != ""
    ensures r.success ==> Count(clean(rawInput.value), Delimiter) == 2
    ensures host.altDirectorySeparator != host.directorySeparator ==>
              host.altDirectorySeparator !in r.entry.relativePath
    ensures !r.success ==> r.entry.size == 0
  {
    if rawInput.None? || rawInput.value == "" then ParseOutcome(false, DefaultEntry())
    else
      var elements := Split(clean(rawInput.value), Delimiter);
      if |elements| != 3 then ParseOutcome(false, DefaultEntry())
      else
        var path := Replace(elements[0], host.altDirectorySeparator, host.directorySeparator);
        var hash := elements[1];
        match ParseLong(elements[2])
        case Some(size) => ParseOutcome(true, ManifestEntry(path, hash, size))
        case None => ParseOutcome(false, ManifestEntry(path, hash, 0))
  }

  /** Three colon-free fields joined by `:` split back into those three. */
  lemma SplitThree(a: string, b: string, c: string)
    requires ':' !in a && ':' !in b && ':' !in c
    ensures Split(a + [Delimiter] + b + [Delimiter] + c, Delimiter) == [a, b, c]
  {
    var fields := [a, b, c];
    assert fields[1..] == [b, c] && [b, c][1..] == [c];
    assert Join([b, c], Delimiter) == b + [Delimiter] + c;
    assert Join(fields, Delimiter) == a + [Delimiter] + b + [Delimiter] + c;
    SplitJoin(fields, Delimiter);
  }

  /** A null or empty line fails and leaves the empty record, whatever the sanitiser
      does: `Clean` is never called on it. */
  lemma TryParseNullOrEmpty(rawInput: Option<string>, clean: string -> string, other: string -> string, host: Host)
    requires rawInput.None? || rawInput.value == ""
    ensures TryParse(rawInput, clean, host) == ParseOutcome(false, DefaultEntry())
    ensures TryParse(rawInput, clean, host) == TryParse(rawInput, other, host)
  {
  }

  /** Unless the sanitised line has exactly two colons (three fields), the parse fails
      and leaves the empty record. */
  lemma TryParseFieldCount(raw: string, clean: string -> string, host: Host)
    requires Count(clean(raw), Delimiter) != 2
    ensures TryParse(Some(raw), clean, host) == ParseOutcome(false, DefaultEntry())
  {
  }

  /** A non-empty line whose sanitised form is `path:hash:size` fills the entry with the
      path (alternate separators rewritten to the host's), the hash as it stands, and
      succeeds exactly when `size` reads as a `long`, which then is the size. When it
      does not, path and hash have been written all the same and the size stays 0. */
  lemma TryParseFields(raw: string, clean: string -> string, host: Host, path: string, hash: string, size: string)
    requires raw != ""
    requires clean(raw) == path + [Delimiter] + hash + [Delimiter] + size
    requires ':' !in path && ':' !in hash && ':' !in size
    ensures var r := TryParse(Some(raw), clean, host);
            && r.entry.relativePath == Replace(path, host.altDirectorySeparator, host.directorySeparator)
            && r.entry.hash == hash
            && r.success == ParseLong(size).Some?
            && r.entry.size == (if r.success then ParseLong(size).value else 0)
  {
    SplitThree(path, hash, size);
  }

  /** The conditions under which an entry survives `ToString` then `TryParse`: neither
      path nor hash holds a `:`, the path holds no alternate separator the host would
      rewrite, and the sanitiser leaves the formatted text as it is. */
  predicate Reproducible(e: ManifestEntry, clean: string -> string, host: Host) {
    && ':' !in e.relativePath && ':' !in e.hash
    && (host.altDirectorySeparator == host.directorySeparator ||
        host.altDirectorySeparator !in e.relativePath)
    && clean(Format(e)) == Format(e)
  }

  /** Parsing the text of a reproducible entry gives the entry back. */
  lemma RoundTrip(e: ManifestEntry, clean: string -> string, host: Host)
    requires Reproducible(e, clean, host)
    ensures TryParse(Some(Format(e)), clean, host) == ParseOutcome(true, e)
  {
    var line := Format(e);
    assert line != "" by {
      assert line[|e.relativePath|] == Delimiter;
    }
    ParseFormatLong(e.size);
    if host.altDirectorySeparator == host.directorySeparator {
      var p := Replace(e.relativePath, host.altDirectorySeparator, host.directorySeparator);
      assert p == e.relativePath;
    }
  }

  /** The parser does not refuse a negative size: `path:hash:-n` reads as size `-n`. */
  lemma NegativeSizeAccepted(path: string, hash: string, host: Host, size: Long)
    requires size < 0
    requires ':' !in path && ':' !in hash
    requires host.altDirectorySeparator == host.directorySeparator ||
             host.altDirectorySeparator !in path
    ensures TryParse(Some(Format(ManifestEntry(path, hash, size))), s => s, host)
            == ParseOutcome(true, ManifestEntry(path, hash, size))
  {
    RoundTrip(ManifestEntry(path, hash, size), s => s, host);
  }
}
