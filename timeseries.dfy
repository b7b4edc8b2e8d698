/**
 * The file names plotTimeseries works with: the selection of `ts.` files
 * from a directory listing, the location ID read back from such a name with
 * str.rstrip and str.lstrip, and the names of the input and output files.
 * Python's rstrip and lstrip take a SET of characters, not a suffix or a
 * prefix, and the model keeps that reading.
 */
module PlotTimeseries {

  /** str.startswith */
  predicate StartsWith(s: string, prefix: string) {
    prefix <= s
  }

  /** The characters f.rstrip('.csv') removes. */
  const CsvChars: set<char> := {'.', 'c', 's', 'v'}

  /** The characters lstrip('ts.') removes. */
  const TsChars: set<char> := {'t', 's', '.'}

  /** The prefix that marks a timeseries file. */
  const TsPrefix: string := "ts."

  /** str.rstrip(chars): the longest prefix of s that does not end in one of chars. */
  function RStrip(s: string, chars: set<char>): (r: string)
    ensures |r| <= |s| && r == s[..|r|]
    ensures r == [] || r[|r| - 1] !in chars
    ensures forall k :: |r| <= k < |s| ==> s[k] in chars
  {
    if s != [] && s[|s| - 1] in chars then RStrip(s[..|s| - 1], chars) else s
  }

  /** str.lstrip(chars): the longest suffix of s that does not start with one of chars. */
  function LStrip(s: string, chars: set<char>): (r: string)
    ensures |r| <= |s| && r == s[|s| - |r|..]
    ensures r == [] || r[0] !in chars
    ensures forall k :: 0 <= k < |s| - |r| ==> s[k] in chars
  {
    if s != [] && s[0] in chars then LStrip(s[1..], chars) else s
  }

  /** Any prefix of s that stops at a kept character, with only chars after it, is s.rstrip(chars). */
  lemma RStripUnique(s: string, chars: set<char>, n: nat)
    requires n <= |s| && (n == 0 || s[n - 1] !in chars)
    requires forall k :: n <= k < |s| ==> s[k] in chars
    ensures RStrip(s, chars) == s[..n]
  {
  }

  /** Any suffix of s that starts at a kept character, with only chars before it, is s.lstrip(chars). */
  lemma LStripUnique(s: string, chars: set<char>, n: nat)
    requires n <= |s| && (n == |s| || s[n] !in chars)
    requires forall k :: 0 <= k < n ==> s[k] in chars
    ensures LStrip(s, chars) == s[n..]
  {
  }

  /** [f for f in files if f.startswith('ts.')] */
  function SelectFiles(files: seq<string>): (r: seq<string>)
    ensures |r| <= |files|
    ensures forall k :: 0 <= k < |r| ==> StartsWith(r[k], TsPrefix)
  {
    if files == [] then []
    else (if StartsWith(files[0], TsPrefix) then [files[0]] else []) + SelectFiles(files[1..])
  }

  /** A name is selected exactly when it is listed and starts with `ts.`. */
  lemma {:induction false} SelectFilesMembers(files: seq<string>)
    ensures forall f :: f in SelectFiles(files) <==> f in files && StartsWith(f, TsPrefix)
  {
    if files != [] {
      SelectFilesMembers(files[1..]);
      assert files == [files[0]] + files[1..];
    }
  }

  /** Selection keeps the listing order: it distributes over a split of the listing. */
  lemma {:induction false} SelectFilesAppend(a: seq<string>, b: seq<string>)
    ensures SelectFiles(a + b) == SelectFiles(a) + SelectFiles(b)
  {
    if a != [] {
      assert (a + b)[0] == a[0];
      assert (a + b)[1..] == a[1..] + b;
      SelectFilesAppend(a[1..], b);
    } else {
      assert a + b == b;
    }
  }

  /** f.rstrip('.csv').lstrip('ts.'): the location ID the listing branch reads from a file name. */
  function LocationId(f: string): (r: string)
    ensures r == [] || r[|r| - 1] !in CsvChars
    ensures r == [] || r[0] !in TsChars
    ensures exists i :: 0 <= i <= |f| && r <= f[i..]
  {
    var stem := RStrip(f, CsvChars);
    var r := LStrip(stem, TsChars);
    assert r <= f[|stem| - |r|..] by {
      assert f[|stem| - |r|..][..|r|] == stem[|stem| - |r|..];
    }
    r
  }

  /**
   * 'ts.%s' % locID with an extension: the file the locID branch reads
   * (ext '.csv') and the image it writes (ext '.png').
   */
  function TsName(locId: string, ext: string): (r: string)
    ensures StartsWith(r, TsPrefix) && |r| == |locId| + 3 + |ext|
    ensures r[3..3 + |locId|] == locId && r[3 + |locId|..] == ext
  {
    TsPrefix + locId + ext
  }

  /** 'ts.%s.csv' % locID: the file the locID branch reads. */
  function InputName(locId: string): string {
    TsName(locId, ".csv")
  }

  /** '%s.png' % f.rstrip('.csv'): the image the listing branch writes for file f. */
  function ListingOutputName(f: string): (r: string)
    ensures |r| <= |f| + 4
  {
    RStrip(f, CsvChars) + ".png"
  }

  /** 'ts.%s.png' % locID: the image the locID branch writes. */
  function LocOutputName(locId: string): string {
    TsName(locId, ".png")
  }

  /**
   * The location IDs that survive the round trip through their own file
   * name: the empty one, and those that neither start with t, s or . nor
   * end in ., c, s or v.
   */
  predicate RoundTrips(locId: string) {
    locId == [] || (locId[0] !in TsChars && locId[|locId| - 1] !in CsvChars)
  }

  /** The stem rstrip leaves of 'ts.' + L + '.csv' when L ends in a kept character. */
  lemma StemOfInput(locId: string)
    requires locId != [] && locId[|locId| - 1] !in CsvChars
    ensures RStrip(InputName(locId), CsvChars) == TsPrefix + locId
  {
    var f := InputName(locId);
    assert f[..|locId| + 3] == TsPrefix + locId;
    assert f[|locId| + 2] == locId[|locId| - 1];
    RStripUnique(f, CsvChars, |locId| + 3);
  }

  /** Reading the ID back from 'ts.' + L + '.csv' gives L exactly when L round-trips. */
  lemma RoundTrip(locId: string)
    ensures LocationId(InputName(locId)) == locId <==> RoundTrips(locId)
  {
    var f := InputName(locId);
    if locId == [] {
      assert f == ['t', 's', '.', '.', 'c', 's', 'v'];
      RStripUnique(f, CsvChars, 1);
      assert f[..1] == ['t'];
      LStripUnique(['t'], TsChars, 1);
    } else if RoundTrips(locId) {
      StemOfInput(locId);
      var stem := TsPrefix + locId;
      assert stem[3..] == locId;
      LStripUnique(stem, TsChars, 3);
    }
  }

  /** A location whose ID starts with a stripped character loses it: 'ts.site.csv' gives 'ite'. */
  lemma RoundTripExample()
    ensures LocationId(InputName("site")) == "ite"
  {
    var f := InputName("site");
    assert f == ['t', 's', '.', 's', 'i', 't', 'e', '.', 'c', 's', 'v'];
    RStripUnique(f, CsvChars, 7);
    var stem := f[..7];
    assert stem == ['t', 's', '.', 's', 'i', 't', 'e'];
    LStripUnique(stem, TsChars, 4);
    assert stem[4..] == "ite";
  }

  /**
   * The two branches name the image of location L alike exactly when L is
   * non-empty and does not end in ., c, s or v: the start of L plays no part.
   */
  lemma OutputNamesAgree(locId: string)
    ensures ListingOutputName(InputName(locId)) == LocOutputName(locId) <==>
            locId != [] && locId[|locId| - 1] !in CsvChars
  {
    var f := InputName(locId);
    var stem, want := RStrip(f, CsvChars), TsPrefix + locId;
    AppendCancel(stem, want, ".png");
    if locId != [] && locId[|locId| - 1] !in CsvChars {
      StemOfInput(locId);
    } else {
      assert want[|want| - 1] in CsvChars;
    }
  }

  /** Two names with the same extension appended are equal exactly when the names are. */
  lemma AppendCancel(a: string, b: string, ext: string)
    ensures a + ext == b + ext <==> a == b
  {
    if a + ext == b + ext {
      assert a == (a + ext)[..|a|];
      assert b == (b + ext)[..|b|];
    }
  }
}
