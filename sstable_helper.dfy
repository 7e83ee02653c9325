/** Path names of an SSTable and its companion files, and the sequence number
    parsed back out of a file name (`SSTableHelper`). A table `name` with
    sequence number `n` in directory `d` lives in
    `d/name/sstable_name_n` followed by one suffix per file kind. */
module SSTableHelper {
  import opened Wrappers
  import opened Strings

  const SEPARATOR: string := "/"
  const SST_FILE_PREFIX: string := "sstable_"
  const SST_FILE_SUFFIX: string := ".sst"
  const SST_INDEX_SUFFIX: string := ".idx"
  const SST_BLOOM_SUFFIX: string := ".blm"
  const SST_META_SUFFIX: string := ".meta"

  /** `getSSTableDir`: the directory holding every file of table `name`. */
  function SSTableDir(directory: string, name: string): string
  {
    directory + SEPARATOR + name
  }

  /** `getSSTableBase`: the common stem of the files of table number `n`. */
  function SSTableBase(directory: string, name: string, n: int): string
  {
    SSTableDir(directory, name) + SEPARATOR + BaseName(name, n)
  }

  /** The base name without its directory. */
  function BaseName(name: string, n: int): string
  {
    SST_FILE_PREFIX + name + "_" + IntToString(n)
  }

  function SSTableFilename(directory: string, name: string, n: int): string
  {
    SSTableBase(directory, name, n) + SST_FILE_SUFFIX
  }

  function SSTableIndexFilename(directory: string, name: string, n: int): string
  {
    SSTableBase(directory, name, n) + SST_INDEX_SUFFIX
  }

  function SSTableBloomFilterFilename(directory: string, name: string, n: int): string
  {
    SSTableBase(directory, name, n) + SST_BLOOM_SUFFIX
  }

  function SSTableMetadataFilename(directory: string, name: string, n: int): string
  {
    SSTableBase(directory, name, n) + SST_META_SUFFIX
  }

  /** The file name (no directory) of the data or index file of table number `n`. */
  function LocalName(fullname: string, n: int, suffix: string): string
  {
    BaseName(fullname, n) + suffix
  }

  /** `extractSequenceFromFilename`: remove every occurrence of the table's
      prefix, of the data suffix and of the index suffix, then parse what is
      left as a Java `int`; a parse failure becomes a `StorageManagerException`. */
  function ExtractSequenceFromFilename(fullname: string, filename: string): (r: Result<int, JavaException>)
    ensures r.Ok? ==> IsInt32(r.value)
    ensures r.Err? ==> r.error == StorageManagerException
  {
    var sequence :=
      ReplaceAll(ReplaceAll(ReplaceAll(filename, SST_FILE_PREFIX + fullname + "_", ""),
                            SST_FILE_SUFFIX, ""),
                 SST_INDEX_SUFFIX, "");
    match ParseInt(sequence)
    case Ok(v) => Ok(v)
    case Err(_) => Err(StorageManagerException)
  }

  /** The printed number holds only digits and a minus sign. */
  lemma NumberChars(n: int)
    ensures forall c :: c in IntToString(n) ==> IsDigit(c) || c == '-'
  {
  }

  /** A local file name holds no separator when the table name holds none. */
  lemma LocalNameHasNoSeparator(name: string, n: int, suffix: string)
    requires '/' !in name && '/' !in suffix
    ensures '/' !in LocalName(name, n, suffix)
  {
    NumberChars(n);
  }

  /** The file name part of a data or index path is its local name. */
  lemma LastSegmentIsLocalName(directory: string, name: string, n: int, suffix: string)
    requires '/' !in name && '/' !in suffix
    ensures LastSegment(SSTableBase(directory, name, n) + suffix) == LocalName(name, n, suffix)
  {
    InTableDir(directory, name, n, suffix);
    LocalNameHasNoSeparator(name, n, suffix);
    LastSegmentAfterSeparator(SSTableDir(directory, name), LocalName(name, n, suffix));
  }

  /** A file of table number `n` sits in the table's directory, after one separator. */
  lemma InTableDir(directory: string, name: string, n: int, suffix: string)
    ensures SSTableBase(directory, name, n) + suffix
            == SSTableDir(directory, name) + SEPARATOR + LocalName(name, n, suffix)
  {
    var dir := SSTableDir(directory, name) + SEPARATOR;
    assert (dir + BaseName(name, n)) + suffix == dir + (BaseName(name, n) + suffix);
  }

  /** The four files of one table are four different paths sharing the base name. */
  lemma CompanionFilesDistinct(directory: string, name: string, n: int)
    ensures var base := SSTableBase(directory, name, n);
            var names := [SSTableFilename(directory, name, n), SSTableIndexFilename(directory, name, n),
                          SSTableBloomFilterFilename(directory, name, n), SSTableMetadataFilename(directory, name, n)];
            (forall i :: 0 <= i < 4 ==> names[i][..|base|] == base) &&
            (forall i, j :: 0 <= i < j < 4 ==> names[i] != names[j])
  {
    var base := SSTableBase(directory, name, n);
    var k := |base|;
    assert SSTableFilename(directory, name, n)[k + 1] == 's';
    assert SSTableIndexFilename(directory, name, n)[k + 1] == 'i';
    assert SSTableBloomFilterFilename(directory, name, n)[k + 1] == 'b';
    assert SSTableMetadataFilename(directory, name, n)[k + 1] == 'm';
  }

  /** Reading the number back out of the data file's name gives `n`. */
  lemma DataFilenameRoundTrip(directory: string, name: string, n: int)
    requires IsInt32(n) && '/' !in name
    ensures ExtractSequenceFromFilename(name, LastSegment(SSTableFilename(directory, name, n))) == Ok(n)
  {
    var digits := IntToString(n);
    NumberChars(n);
    LastSegmentIsLocalName(directory, name, n, SST_FILE_SUFFIX);
    StripPrefix(name, n, SST_FILE_SUFFIX);
    var s1 := digits + SST_FILE_SUFFIX;
    ReplaceSkipsPrefix(digits, SST_FILE_SUFFIX, SST_FILE_SUFFIX, "");
    ReplaceWhole(SST_FILE_SUFFIX, "");
    assert ReplaceAll(s1, SST_FILE_SUFFIX, "") == digits;
    ReplaceAbsent(digits, SST_INDEX_SUFFIX, "", '.');
    ParseIntToString(n);
  }

  /** Reading the number back out of the index file's name gives `n` as well. */
  lemma IndexFilenameRoundTrip(directory: string, name: string, n: int)
    requires IsInt32(n) && '/' !in name
    ensures ExtractSequenceFromFilename(name, LastSegment(SSTableIndexFilename(directory, name, n))) == Ok(n)
  {
    var digits := IntToString(n);
    NumberChars(n);
    LastSegmentIsLocalName(directory, name, n, SST_INDEX_SUFFIX);
    StripPrefix(name, n, SST_INDEX_SUFFIX);
    var s1 := digits + SST_INDEX_SUFFIX;
    ReplaceSkipsPrefix(digits, SST_INDEX_SUFFIX, SST_FILE_SUFFIX, "");
    ReplaceAbsent(SST_INDEX_SUFFIX, SST_FILE_SUFFIX, "", 's');
    assert ReplaceAll(s1, SST_FILE_SUFFIX, "") == s1;
    ReplaceSkipsPrefix(digits, SST_INDEX_SUFFIX, SST_INDEX_SUFFIX, "");
    ReplaceWhole(SST_INDEX_SUFFIX, "");
    assert ReplaceAll(s1, SST_INDEX_SUFFIX, "") == digits;
    ParseIntToString(n);
  }

  /** Removing the table prefix from a local name leaves the number and the suffix. */
  lemma StripPrefix(fullname: string, n: int, suffix: string)
    requires '_' !in suffix
    ensures ReplaceAll(LocalName(fullname, n, suffix), SST_FILE_PREFIX + fullname + "_", "")
            == IntToString(n) + suffix
  {
    var pat := SST_FILE_PREFIX + fullname + "_";
    var rest := IntToString(n) + suffix;
    NumberChars(n);
    assert LocalName(fullname, n, suffix) == pat + rest;
    ReplaceLeading(pat, rest, "");
    assert pat[|pat| - 1] == '_';
    ReplaceAbsent(rest, pat, "", '_');
  }

  /** A remainder that is not a number makes the extraction fail. */
  lemma ExtractRejectsNonNumber(fullname: string, junk: string)
    requires junk != [] && !IsDigit(junk[0]) && junk[0] != '-' && junk[0] != '+'
    requires '_' !in junk && '.' !in junk
    ensures ExtractSequenceFromFilename(fullname, SST_FILE_PREFIX + fullname + "_" + junk + SST_FILE_SUFFIX)
            == Err(StorageManagerException)
  {
    var pat := SST_FILE_PREFIX + fullname + "_";
    assert SST_FILE_PREFIX + fullname + "_" + junk + SST_FILE_SUFFIX == pat + (junk + SST_FILE_SUFFIX);
    ReplaceLeading(pat, junk + SST_FILE_SUFFIX, "");
    assert pat[|pat| - 1] == '_';
    ReplaceAbsent(junk + SST_FILE_SUFFIX, pat, "", '_');
    ReplaceSkipsPrefix(junk, SST_FILE_SUFFIX, SST_FILE_SUFFIX, "");
    ReplaceWhole(SST_FILE_SUFFIX, "");
    ReplaceAbsent(junk, SST_INDEX_SUFFIX, "", '.');
    assert !AllDigits(junk) by {
      assert !IsDigit(junk[0]);
    }
  }

  /** Different table numbers give different file names. */
  lemma DistinctNumbersDistinctNames(directory: string, name: string, n: int, m: int)
    requires IsInt32(n) && IsInt32(m) && n != m
    ensures SSTableFilename(directory, name, n) != SSTableFilename(directory, name, m)
    ensures SSTableIndexFilename(directory, name, n) != SSTableIndexFilename(directory, name, m)
    ensures SSTableBloomFilterFilename(directory, name, n) != SSTableBloomFilterFilename(directory, name, m)
    ensures SSTableMetadataFilename(directory, name, n) != SSTableMetadataFilename(directory, name, m)
  {
    var stem := SSTableDir(directory, name) + SEPARATOR + SST_FILE_PREFIX + name + "_";
    var a, b := IntToString(n), IntToString(m);
    if a == b {
      IntToStringInjective(n, m);
    }
    assert SSTableBase(directory, name, n) == stem + a;
    assert SSTableBase(directory, name, m) == stem + b;
    ConcatCancel(stem, a, b, SST_FILE_SUFFIX);
    ConcatCancel(stem, a, b, SST_INDEX_SUFFIX);
    ConcatCancel(stem, a, b, SST_BLOOM_SUFFIX);
    ConcatCancel(stem, a, b, SST_META_SUFFIX);
  }

  lemma ConcatCancel(x: string, a: string, b: string, y: string)
    requires a != b
    ensures x + a + y != x + b + y
  {
    if |a| == |b| {
      assert a == (x + a + y)[|x|..|x| + |a|];
      assert b == (x + b + y)[|x|..|x| + |b|];
    }
  }
}
