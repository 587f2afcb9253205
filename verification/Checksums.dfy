/** Finding the digest of one archive in a checksum manifest that lists every archive once. */
module Checksums {
  import opened Texts
  import opened Wrappers

  datatype ChecksumError = InvalidEntry(line: nat) | InvalidName(line: nat) | Duplicate | NoEntry

  datatype Line = Blank | Malformed | BadName | Listed(digest: string, name: string)

  datatype Entry = Entry(digest: string, name: string)

  const DIGEST_LENGTH: nat := 64

  predicate IsHexDigit(c: char) {
    IsDigit(c) || 'a' <= c <= 'f' || 'A' <= c <= 'F'
  }

  predicate IsDigest(text: string) {
    |text| == DIGEST_LENGTH && forall i :: 0 <= i < |text| ==> IsHexDigit(text[i])
  }

  function LowerCase(text: string): string {
    seq(|text|, i requires 0 <= i < |text| =>
      if 'A' <= text[i] <= 'Z' then (text[i] as int - 'A' as int + 'a' as int) as char else text[i])
  }

  predicate IsPlainName(name: string) {
    name != "" && '/' !in name && '\\' !in name
  }

  function WithoutReturn(line: string): string {
    if line != "" && line[|line| - 1] == '\r' then line[..|line| - 1] else line
  }

  /** The lines of a text; a carriage return belongs to the line feed that follows it. */
  function Lines(text: string): (lines: seq<string>) {
    var pieces := Split(text, '\n');
    seq(|pieces|, i requires 0 <= i < |pieces| => if i < |pieces| - 1 then WithoutReturn(pieces[i]) else pieces[i])
  }

  function ReadLine(line: string): Line {
    if line == "" then Blank
    else
      var fields := SplitWords(line);
      if |fields| != 2 || !IsDigest(fields[0]) then Malformed
      else
        var name := if fields[1][0] == '*' then fields[1][1..] else fields[1];
        if IsPlainName(name) then Listed(fields[0], name) else BadName
  }

  function ReadLines(lines: seq<string>): (read: seq<Line>)
    ensures |read| == |lines| && forall i :: 0 <= i < |lines| ==> read[i] == ReadLine(lines[i])
  {
    if lines == [] then [] else ReadLines(lines[..|lines| - 1]) + [ReadLine(lines[|lines| - 1])]
  }

  function Manifest(text: string): seq<Line> {
    ReadLines(Lines(text))
  }

  /** The digests listed for one name, in their order. */
  function DigestsOf(manifest: seq<Line>, name: string): seq<string> {
    if manifest == [] then []
    else
      var before, last := DigestsOf(manifest[..|manifest| - 1], name), manifest[|manifest| - 1];
      if last.Listed? && last.name == name then before + [last.digest] else before
  }

  predicate AllInOrder(manifest: seq<Line>) {
    forall i :: 0 <= i < |manifest| ==> manifest[i].Blank? || manifest[i].Listed?
  }

  /** What is wrong with a line after others that are in order. */
  function Fault(before: seq<Line>, line: Line, name: string): Option<ChecksumError> {
    match line
    case Blank => None
    case Malformed => Some(InvalidEntry(|before| + 1))
    case BadName => Some(InvalidName(|before| + 1))
    case Listed(_, listed) => if listed == name && DigestsOf(before, name) != [] then Some(Duplicate) else None
  }

  /**
   * The digest is found exactly when every line is in order and exactly one lists the archive; otherwise
   * the error is that of the first line at fault, or that the archive is not listed.
   */
  ghost predicate IsVerdict(manifest: seq<Line>, name: string, result: Result<string, ChecksumError>) {
    match result
    case Ok(digest) =>
      && AllInOrder(manifest) && |DigestsOf(manifest, name)| == 1
      && digest == LowerCase(DigestsOf(manifest, name)[0])
    case Err(NoEntry) => AllInOrder(manifest) && DigestsOf(manifest, name) == []
    case Err(error) =>
      && !(AllInOrder(manifest) && |DigestsOf(manifest, name)| <= 1)
      && exists i :: && 0 <= i < |manifest| && AllInOrder(manifest[..i]) && |DigestsOf(manifest[..i], name)| <= 1
                     && Fault(manifest[..i], manifest[i], name) == Some(error)
  }

  method ExpectedChecksum(text: string, name: string) returns (result: Result<string, ChecksumError>)
    ensures IsVerdict(Manifest(text), name, result)
  {
    result := FindDigest(Manifest(text), name);
  }

  method FindDigest(manifest: seq<Line>, name: string) returns (result: Result<string, ChecksumError>)
    ensures IsVerdict(manifest, name, result)
  {
    var expected: Option<string> := None;
    for index := 0 to |manifest|
      invariant AllInOrder(manifest[..index])
      invariant expected.None? ==> DigestsOf(manifest[..index], name) == []
      invariant expected.Some? ==> |DigestsOf(manifest[..index], name)| == 1
                                   && expected.value == LowerCase(DigestsOf(manifest[..index], name)[0])
    {
      assert manifest[..index + 1][..index] == manifest[..index];
      var line := manifest[index];
      if line == Malformed {
        return Err(InvalidEntry(index + 1));
      }
      if line == BadName {
        return Err(InvalidName(index + 1));
      }
      if line.Listed? && line.name == name {
        if expected.Some? {
          MoreLinesMoreDigests(manifest, index + 1, name);
          return Err(Duplicate);
        }
        expected := Some(LowerCase(line.digest));
      }
      OneMoreInOrder(manifest, index);
    }
    assert manifest[..|manifest|] == manifest;
    return if expected.Some? then Ok(expected.value) else Err(NoEntry);
  }

  lemma OneMoreInOrder(manifest: seq<Line>, n: nat)
    requires n < |manifest| && AllInOrder(manifest[..n]) && (manifest[n].Blank? || manifest[n].Listed?)
    ensures AllInOrder(manifest[..n + 1])
  {
  }

  lemma {:induction false} MoreLinesMoreDigests(manifest: seq<Line>, n: nat, name: string)
    requires n <= |manifest|
    ensures |DigestsOf(manifest[..n], name)| <= |DigestsOf(manifest, name)|
  {
    if n == |manifest| {
      assert manifest[..n] == manifest;
    } else {
      var init := manifest[..|manifest| - 1];
      assert init[..n] == manifest[..n];
      MoreLinesMoreDigests(init, n, name);
    }
  }

  // ---- A manifest that was written out ---------------------------------------------------------------------

  ghost predicate IsProperEntry(entry: Entry) {
    IsDigest(entry.digest) && IsWord(entry.name) && IsPlainName(entry.name) && entry.name[0] != '*'
  }

  function LineOf(entry: Entry): string {
    entry.digest + "  " + entry.name
  }

  ghost function LinesOf(entries: seq<Entry>): (lines: seq<string>)
    ensures |lines| == |entries|
  {
    seq(|entries|, i requires 0 <= i < |entries| => LineOf(entries[i]))
  }

  lemma DigestIsAWord(digest: string)
    requires IsDigest(digest)
    ensures IsWord(digest) && '\n' !in digest
  {
  }

  lemma TwoWords(first: string, second: string)
    requires IsWord(first) && IsWord(second)
    ensures SplitWords(first + "  " + second) == [first, second]
  {
    assert first + "  " + second == first + (" " + (" " + second));
    WordComesFirst(first, " " + (" " + second));
    SpaceIsSkipped(" " + second);
    SpaceIsSkipped(second);
    WordComesFirst(second, "");
    assert second + "" == second;
  }

  lemma WrittenLineIsRead(entry: Entry)
    requires IsProperEntry(entry)
    ensures ReadLine(LineOf(entry)) == Listed(entry.digest, entry.name)
    ensures '\n' !in LineOf(entry) && WithoutReturn(LineOf(entry)) == LineOf(entry)
  {
    var line := LineOf(entry);
    DigestIsAWord(entry.digest);
    TwoWords(entry.digest, entry.name);
    assert line[|line| - 1] == entry.name[|entry.name| - 1];
    assert forall i :: 0 <= i < |entry.name| ==> !IsSpace(entry.name[i]);
  }

  ghost function ListedAs(entries: seq<Entry>): (manifest: seq<Line>) {
    seq(|entries|, i requires 0 <= i < |entries| => Listed(entries[i].digest, entries[i].name))
  }

  lemma {:induction false} ListedDigests(entries: seq<Entry>, name: string)
    requires forall i, j :: 0 <= i < j < |entries| ==> entries[i].name != entries[j].name
    ensures forall i :: 0 <= i < |entries| && entries[i].name == name ==>
              DigestsOf(ListedAs(entries), name) == [entries[i].digest]
    ensures (forall i :: 0 <= i < |entries| ==> entries[i].name != name) ==> DigestsOf(ListedAs(entries), name) == []
  {
    if entries != [] {
      var n := |entries| - 1;
      ListedDigests(entries[..n], name);
      assert ListedAs(entries)[..n] == ListedAs(entries[..n]);
      assert forall i :: 0 <= i < n ==> entries[..n][i] == entries[i];
    }
  }

  lemma LinesReadAsListed(entries: seq<Entry>)
    requires forall i :: 0 <= i < |entries| ==> IsProperEntry(entries[i])
    ensures ReadLines(LinesOf(entries)) == ListedAs(entries)
  {
    forall i | 0 <= i < |entries|
      ensures ReadLine(LineOf(entries[i])) == Listed(entries[i].digest, entries[i].name)
    {
      WrittenLineIsRead(entries[i]);
    }
  }

  /** A manifest written one entry a line reads back as exactly these entries. */
  lemma WrittenManifestReadsBack(entries: seq<Entry>)
    requires entries != [] && forall i :: 0 <= i < |entries| ==> IsProperEntry(entries[i])
    ensures Manifest(Join(LinesOf(entries), '\n')) == ListedAs(entries)
  {
    var lines := LinesOf(entries);
    forall i | 0 <= i < |entries|
      ensures '\n' !in lines[i] && WithoutReturn(lines[i]) == lines[i]
    {
      WrittenLineIsRead(entries[i]);
    }
    JoinedPartsSplit(lines, '\n');
    assert Lines(Join(lines, '\n')) == lines;
    LinesReadAsListed(entries);
  }

  /** So it yields the digest of every archive it lists, and none for any other name. */
  lemma WrittenManifestYieldsEveryDigest(entries: seq<Entry>, name: string)
    requires entries != [] && forall i :: 0 <= i < |entries| ==> IsProperEntry(entries[i])
    requires forall i, j :: 0 <= i < j < |entries| ==> entries[i].name != entries[j].name
    ensures var manifest := Manifest(Join(LinesOf(entries), '\n'));
            && AllInOrder(manifest)
            && (forall i :: 0 <= i < |entries| && entries[i].name == name ==>
                  DigestsOf(manifest, name) == [entries[i].digest])
            && ((forall i :: 0 <= i < |entries| ==> entries[i].name != name) ==> DigestsOf(manifest, name) == [])
  {
    WrittenManifestReadsBack(entries);
    ListedDigests(entries, name);
  }

  // ---- Every line, and the digest that is found --------------------------------------------------------------

  /** Sixty-four characters, each a hexadecimal digit in either case. */
  predicate IsHexText(text: string) {
    |text| == 64 && forall c :: c in text ==> c in "0123456789abcdefABCDEF"
  }

  /** No file's name, or the name of a file in another directory. */
  predicate IsUnacceptable(name: string) {
    name == "" || '/' in name || '\\' in name
  }

  /** The name as it is written, or behind the asterisk of a binary entry. */
  predicate Denotes(field: string, name: string) {
    if field != "" && field[0] == '*' then field == "*" + name else field == name
  }

  /** For every line: when it is blank, when it lists a digest under a name, and which fault it has otherwise. */
  lemma LineReadsExactlyWhen(line: string)
    ensures ReadLine(line) == Blank <==> line == ""
    ensures forall digest, name :: ReadLine(line) == Listed(digest, name) <==>
              && |SplitWords(line)| == 2 && SplitWords(line)[0] == digest && IsHexText(digest)
              && Denotes(SplitWords(line)[1], name) && !IsUnacceptable(name)
    ensures ReadLine(line) == BadName <==>
            && |SplitWords(line)| == 2 && IsHexText(SplitWords(line)[0])
            && exists name :: Denotes(SplitWords(line)[1], name) && IsUnacceptable(name)
  {
    var fields := SplitWords(line);
    if |fields| == 2 {
      DigestsAreHexTexts(fields[0]);
      var name := if fields[1][0] == '*' then fields[1][1..] else fields[1];
      forall other: string ensures Denotes(fields[1], other) <==> other == name {
        if fields[1] == "*" + other {
          assert fields[1][1..] == other;
        }
        assert fields[1][0] == '*' ==> fields[1] == "*" + name;
      }
      assert Denotes(fields[1], name);
    }
  }

  lemma DigestsAreHexTexts(text: string)
    ensures IsDigest(text) <==> IsHexText(text)
  {
    forall c: char ensures IsHexDigit(c) <==> c in "0123456789abcdefABCDEF" {
      HexDigitsAreListed(c);
    }
    assert forall i :: 0 <= i < |text| ==> text[i] in text;
  }

  lemma HexDigitsAreListed(c: char)
    ensures IsHexDigit(c) <==> c in "0123456789abcdefABCDEF"
  {
    var digits := "0123456789abcdefABCDEF";
    if '0' <= c <= '9' {
      assert digits[c as int - '0' as int] == c;
    } else if 'a' <= c <= 'f' {
      assert digits[10 + c as int - 'a' as int] == c;
    } else if 'A' <= c <= 'F' {
      assert digits[16 + c as int - 'A' as int] == c;
    }
  }

  /** The same digits in the same places, none of them a capital; capitals and small letters are 32 apart. */
  predicate SameInLowerCase(lower: string, digest: string) {
    && |lower| == |digest|
    && forall i :: 0 <= i < |digest| ==>
         && ('0' <= lower[i] <= '9' || 'a' <= lower[i] <= 'f')
         && (lower[i] == digest[i] || lower[i] as int == digest[i] as int + 32)
  }

  lemma LowerCaseDigit(digest: string)
    requires IsHexText(digest)
    ensures SameInLowerCase(LowerCase(digest), digest)
  {
    DigestsAreHexTexts(digest);
  }

  lemma ListedDigestsAreHexTexts(lines: seq<string>, name: string)
    ensures forall digest :: digest in DigestsOf(ReadLines(lines), name) ==>
              IsHexText(digest) && exists line :: line in lines && ReadLine(line) == Listed(digest, name)
  {
    if lines != [] {
      var n := |lines| - 1;
      ListedDigestsAreHexTexts(lines[..n], name);
      LineReadsExactlyWhen(lines[n]);
      assert lines == lines[..n] + [lines[n]];
      assert ReadLines(lines)[..n] == ReadLines(lines[..n]);
    }
  }

  /** A digest that is found is the one that some line lists for the archive, in small letters. */
  lemma FoundDigestIsListed(text: string, name: string, result: Result<string, ChecksumError>)
    requires IsVerdict(Manifest(text), name, result) && result.Ok?
    ensures exists line, digest :: && line in Lines(text) && ReadLine(line) == Listed(digest, name)
                                   && IsHexText(digest) && SameInLowerCase(result.value, digest)
  {
    var digest := DigestsOf(Manifest(text), name)[0];
    ListedDigestsAreHexTexts(Lines(text), name);
    assert digest in DigestsOf(Manifest(text), name);
    var line :| line in Lines(text) && ReadLine(line) == Listed(digest, name);
    LowerCaseDigit(digest);
  }

  predicate Lists(line: Line, name: string) {
    line.Listed? && line.name == name
  }

  lemma {:induction false} DigestsAreOfTheirLines(manifest: seq<Line>, name: string)
    ensures DigestsOf(manifest, name) == [] <==> forall i :: 0 <= i < |manifest| ==> !Lists(manifest[i], name)
  {
    if manifest != [] {
      var n := |manifest| - 1;
      DigestsAreOfTheirLines(manifest[..n], name);
      assert forall i :: 0 <= i < n ==> manifest[..n][i] == manifest[i];
    }
  }

  lemma FaultIsTrue(before: seq<Line>, line: Line, name: string)
    ensures match Fault(before, line, name)
            case None => true
            case Some(InvalidEntry(n)) => n == |before| + 1 && line == Malformed
            case Some(InvalidName(n)) => n == |before| + 1 && line == BadName
            case Some(Duplicate) => Lists(line, name) && exists j :: 0 <= j < |before| && Lists(before[j], name)
            case Some(NoEntry) => false
  {
    DigestsAreOfTheirLines(before, name);
  }

  /** Every error is true of the manifest: the numbered line is at fault, two lines list the archive, or none does. */
  lemma ErrorsAreTrueOfTheManifest(manifest: seq<Line>, name: string, error: ChecksumError)
    requires IsVerdict(manifest, name, Err(error))
    ensures match error
            case InvalidEntry(n) => 1 <= n <= |manifest| && manifest[n - 1] == Malformed
            case InvalidName(n) => 1 <= n <= |manifest| && manifest[n - 1] == BadName
            case Duplicate =>
              exists i, j :: 0 <= i < j < |manifest| && Lists(manifest[i], name) && Lists(manifest[j], name)
            case NoEntry => forall i :: 0 <= i < |manifest| ==> !Lists(manifest[i], name)
  {
    if error == NoEntry {
      DigestsAreOfTheirLines(manifest, name);
    } else {
      var i :| 0 <= i < |manifest| && Fault(manifest[..i], manifest[i], name) == Some(error);
      FaultIsTrue(manifest[..i], manifest[i], name);
      if error == Duplicate {
        var j :| 0 <= j < i && Lists(manifest[..i][j], name);
        assert manifest[..i][j] == manifest[j];
      }
    }
  }

  /** The line is the piece without one carriage return at its end. */
  predicate IsWithoutReturn(line: string, piece: string) {
    piece == line + "\r" || (piece == line && (line == "" || line[|line| - 1] != '\r'))
  }

  lemma OneReturnIsDropped(piece: string)
    ensures IsWithoutReturn(WithoutReturn(piece), piece)
  {
  }

  lemma LinesOfPieces(text: string, pieces: seq<string>)
    requires Split(text, '\n') == pieces
    ensures var lines, last := Lines(text), |pieces| - 1;
            && |lines| == |pieces| && lines[last] == pieces[last]
            && forall i :: 0 <= i < last ==> IsWithoutReturn(lines[i], pieces[i])
  {
    forall i | 0 <= i < |pieces| - 1 ensures IsWithoutReturn(Lines(text)[i], pieces[i]) {
      OneReturnIsDropped(pieces[i]);
    }
  }

  /** The lines are the pieces between line feeds, each but the last without one carriage return at its end. */
  lemma LinesExactly(pieces: seq<string>)
    requires pieces != [] && forall i :: 0 <= i < |pieces| ==> '\n' !in pieces[i]
    ensures var lines, last := Lines(Join(pieces, '\n')), |pieces| - 1;
            && |lines| == |pieces| && lines[last] == pieces[last]
            && forall i :: 0 <= i < last ==> IsWithoutReturn(lines[i], pieces[i])
  {
    JoinedPartsSplit(pieces, '\n');
    LinesOfPieces(Join(pieces, '\n'), pieces);
  }

  /** Lines that end in a carriage return as well read alike, if the last one does not. */
  lemma CarriageReturnsDoNotMatter(entries: seq<Entry>)
    requires entries != [] && forall i :: 0 <= i < |entries| ==> IsProperEntry(entries[i])
    ensures Manifest(Join(ReturnedLinesOf(entries), '\n')) == ListedAs(entries)
  {
    var lines := ReturnedLinesOf(entries);
    forall i | 0 <= i < |entries|
      ensures '\n' !in lines[i]
      ensures (if i < |entries| - 1 then WithoutReturn(lines[i]) else lines[i]) == LineOf(entries[i])
    {
      WrittenLineIsRead(entries[i]);
    }
    JoinedPartsSplit(lines, '\n');
    assert Lines(Join(lines, '\n')) == LinesOf(entries);
    LinesReadAsListed(entries);
  }

  /** As files of another system end their lines. */
  ghost function ReturnedLinesOf(entries: seq<Entry>): (lines: seq<string>)
    ensures |lines| == |entries|
  {
    seq(|entries|, i requires 0 <= i < |entries| =>
      if i < |entries| - 1 then LineOf(entries[i]) + "\r" else LineOf(entries[i]))
  }
}
