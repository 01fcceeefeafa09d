/** `getIdxFromFileName` (`actions/util.go`): the page index encoded in the
    name of an annotation file, either `<idx>-<anything>` (for instance
    `3-metadata.json`) or `<idx>.rm`. */
module FileNames {
  import opened Wrappers
  import opened GoStrings

  /** A name containing `-` has its index before the first `-`; any other name
      has it before a three-byte extension. A name shorter than that
      extension makes the slice bound negative; a non-integer index panics. */
  function GetIdxFromFileName(name: string): Result<int>
  {
    if '-' in name then
      match Atoi(Split(name, '-')[0])
      case None => Panic(BadInteger)
      case Some(i) => Ok(i)
    else if |name| < 3 then Panic(IndexOutOfRange)
    else
      match Atoi(name[..|name| - 3])
      case None => Panic(BadInteger)
      case Some(i) => Ok(i)
  }

  /** The index of any accepted name is non-negative: the text read as a
      number never contains `-`. */
  lemma IndexNonNegative(name: string)
    requires GetIdxFromFileName(name).Ok?
    ensures GetIdxFromFileName(name).value >= 0
  {
    if '-' in name {
      var head := Split(name, '-')[0];
      assert head[0] != '-';
      AtoiNoMinus(head);
    } else {
      var head := name[..|name| - 3];
      assert head[0] in name;
      AtoiNoMinus(head);
    }
  }

  /** `<i>-<rest>` yields `i`, whatever `rest` is. */
  lemma DashNameIndex(i: int, rest: string)
    requires 0 <= i <= MaxInt
    ensures GetIdxFromFileName(Itoa(i) + "-" + rest) == Ok(i)
  {
    ItoaChars(i);
    var name := Itoa(i) + "-" + rest;
    assert name == Itoa(i) + ['-'] + rest;
    assert name[|Itoa(i)|] == '-';
    assert '-' !in Itoa(i);
    SplitAfterPiece(Itoa(i), rest, '-');
    AtoiItoa(i);
  }

  /** `<i><ext>` yields `i` for a three-byte extension without `-`, such as
      `.rm`. */
  lemma ExtensionNameIndex(i: int, ext: string)
    requires 0 <= i <= MaxInt && |ext| == 3 && '-' !in ext
    ensures GetIdxFromFileName(Itoa(i) + ext) == Ok(i)
  {
    ItoaChars(i);
    var name := Itoa(i) + ext;
    assert '-' !in Itoa(i);
    assert '-' !in name by {
      forall k | 0 <= k < |name| ensures name[k] != '-' {
        if k < |Itoa(i)| { assert name[k] == Itoa(i)[k]; } else { assert name[k] == ext[k - |Itoa(i)|]; }
      }
    }
    assert name[..|name| - 3] == Itoa(i);
    AtoiItoa(i);
  }

  /** The name `5.é` is the four bytes `5`, `.`, 0xC3, 0xA9: the last three
      bytes are dropped, not the last three characters, and the index is 5. */
  lemma MultiByteExtensionIndex()
    ensures GetIdxFromFileName("5.\U{C3}\U{A9}") == Ok(5)
  {
    var name := "5.\U{C3}\U{A9}";
    assert '-' !in name;
    assert name[..|name| - 3] == "5";
    AtoiItoa(5);
    assert Itoa(5) == "5";
  }
}
