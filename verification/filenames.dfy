/**
 Naming of the converter's output files.

 An input file name loses its "extension" by splitting it on '.' and keeping
 the first field, so everything from the FIRST dot onward is dropped; the
 output name is that stem followed by ".csv".
 */
module Filenames {

  const Dot: char := '.'
  const CsvSuffix: string := ".csv"

  /** Number of occurrences of `c` in `s`. */
  function Count(s: string, c: char): nat
  {
    if |s| == 0 then 0 else (if s[0] == c then 1 else 0) + Count(s[1..], c)
  }

  /** String splitting on a one-character separator, as Python's `str.split(sep)`
      does it: the fields between separators, in order, empty fields kept, and
      always at least one field (the empty string splits into `[""]`). */
  function Split(s: string, sep: char): (fields: seq<string>)
    ensures |fields| == Count(s, sep) + 1
    ensures forall j :: 0 <= j < |fields| ==> sep !in fields[j]
  {
    if |s| == 0 then [""]
    else
      var rest := Split(s[1..], sep);
      if s[0] == sep then [""] + rest
      else [[s[0]] + rest[0]] + rest[1..]
  }

  /** The inverse of `Split`: the fields glued back together with `sep`. */
  function Join(fields: seq<string>, sep: char): string
    requires |fields| >= 1
  {
    if |fields| == 1 then fields[0]
    else fields[0] + [sep] + Join(fields[1..], sep)
  }

  /** Splitting and re-joining gives the original string back. */
  lemma {:induction false} SplitJoin(s: string, sep: char)
    ensures Join(Split(s, sep), sep) == s
  {
    if |s| == 0 {
    } else {
      var rest := Split(s[1..], sep);
      SplitJoin(s[1..], sep);
      if s[0] == sep {
        assert ([""] + rest)[1..] == rest;
        assert s == [sep] + s[1..];
      } else if |rest| == 1 {
        assert s == [s[0]] + s[1..];
      } else {
        var fields := [[s[0]] + rest[0]] + rest[1..];
        assert fields[1..] == rest[1..];
        assert Join(rest, sep) == rest[0] + [sep] + Join(rest[1..], sep);
        assert s == [s[0]] + s[1..];
      }
    }
  }

  /** A separator-free prefix is absorbed into the first field. */
  lemma {:induction false} SplitSeparatorFreePrefix(a: string, rest: string, sep: char)
    requires sep !in a
    ensures Split(a + rest, sep) == [a + Split(rest, sep)[0]] + Split(rest, sep)[1..]
  {
    if |a| == 0 {
      var t := Split(rest, sep);
      assert a + rest == rest;
      assert a + t[0] == t[0];
      assert t == [t[0]] + t[1..];
    } else {
      var s := a + rest;
      assert s[0] == a[0] != sep;
      assert s[1..] == a[1..] + rest;
      SplitSeparatorFreePrefix(a[1..], rest, sep);
      var r := Split(s[1..], sep);
      var t := Split(rest, sep);
      assert r == [a[1..] + t[0]] + t[1..];
      assert Split(s, sep) == [[a[0]] + r[0]] + r[1..];
      assert r[1..] == t[1..];
      assert [a[0]] + (a[1..] + t[0]) == a + t[0];
    }
  }

  /** Joining separator-free fields and splitting again gives the fields back. */
  lemma {:induction false} JoinSplit(fields: seq<string>, sep: char)
    requires |fields| >= 1
    requires forall j :: 0 <= j < |fields| ==> sep !in fields[j]
    ensures Split(Join(fields, sep), sep) == fields
  {
    if |fields| == 1 {
      SplitSeparatorFreePrefix(fields[0], "", sep);
      assert fields[0] + "" == fields[0];
    } else {
      var tail := Join(fields[1..], sep);
      JoinSplit(fields[1..], sep);
      var rest := [sep] + tail;
      SplitSeparatorFreePrefix(fields[0], rest, sep);
      assert fields[0] + [sep] + tail == fields[0] + rest;
      assert rest[0] == sep && rest[1..] == tail;
      assert Split(rest, sep) == [""] + fields[1..];
      assert fields[0] + "" == fields[0];
      assert fields == [fields[0]] + fields[1..];
    }
  }

  /** The first field of a join is a prefix of it, followed by the separator
      whenever there is more than one field. */
  lemma JoinHead(fields: seq<string>, sep: char)
    requires |fields| >= 1
    ensures fields[0] <= Join(fields, sep)
    ensures |fields| == 1 ==> Join(fields, sep) == fields[0]
    ensures |fields| > 1 ==> |fields[0]| < |Join(fields, sep)| && Join(fields, sep)[|fields[0]|] == sep
  {
  }


  /** The stem of `s` is its longest dot-free prefix: a prefix of `s`, with no
      dot, ending either at the end of `s` or just before a dot of `s`. */
  ghost predicate IsFirstDotCut(s: string, stem: string)
  {
    && stem <= s
    && Dot !in stem
    && (|stem| == |s| || s[|stem|] == Dot)
  }

  /** `drop_extension`: the first '.'-separated field of a file name, which
      is the name cut at its first dot. */
  function DropExtension(filename: string): (stem: string)
    ensures IsFirstDotCut(filename, stem)
  {
    var fields := Split(filename, Dot);
    SplitJoin(filename, Dot);
    JoinHead(fields, Dot);
    fields[0]
  }

  /** The cut at the first dot is unique, so `IsFirstDotCut` pins the stem down. */
  lemma {:induction false} FirstDotCutUnique(s: string, stem1: string, stem2: string)
    requires IsFirstDotCut(s, stem1) && IsFirstDotCut(s, stem2)
    ensures stem1 == stem2
  {
  }

  /** A name comes back unchanged exactly when it contains no dot. */
  lemma DropExtensionUnchangedIff(filename: string)
    ensures DropExtension(filename) == filename <==> Dot !in filename
  {
    if Dot !in filename {
      FirstDotCutUnique(filename, DropExtension(filename), filename);
    }
  }

  /** Dropping the extension twice is the same as dropping it once. */
  lemma DropExtensionIdempotent(filename: string)
    ensures DropExtension(DropExtension(filename)) == DropExtension(filename)
  {
    DropExtensionUnchangedIff(DropExtension(filename));
  }

  /** The cut is at the first dot, not the last one; a leading dot leaves an
      empty stem; and two inputs that share a first field share a stem. */
  lemma DropExtensionExamples()
    ensures DropExtension("track.gpx") == "track"
    ensures DropExtension("a.b.gpx") == "a"
    ensures DropExtension(".gpx") == ""
    ensures DropExtension("track") == "track"
    ensures DropExtension("a.gpx") == DropExtension("a.b.gpx")
  {
    FirstDotCutUnique("track.gpx", DropExtension("track.gpx"), "track");
    FirstDotCutUnique("a.b.gpx", DropExtension("a.b.gpx"), "a");
    FirstDotCutUnique(".gpx", DropExtension(".gpx"), "");
    DropExtensionUnchangedIff("track");
    FirstDotCutUnique("a.gpx", DropExtension("a.gpx"), "a");
  }

  /** The name of the CSV file written for input file `filename`: its stem
      followed by ".csv". It ends in ".csv", holds exactly one dot, and splits
      back into the stem and "csv", so the stem can be recovered from it. */
  function TargetFileName(filename: string): (target: string)
    ensures |target| >= |CsvSuffix| && target[|target| - |CsvSuffix|..] == CsvSuffix
    ensures Count(target, Dot) == 1
    ensures Split(target, Dot) == [DropExtension(filename), "csv"]
    ensures DropExtension(target) == DropExtension(filename)
  {
    var stem := DropExtension(filename);
    var target := stem + CsvSuffix;
    assert Dot !in stem;
    JoinSplit([stem, "csv"], Dot);
    assert Join([stem, "csv"], Dot) == target;
    target
  }
}
