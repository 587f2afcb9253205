/** Cutting texts at a separator and putting them together again. */
module Texts {

  predicate IsDigit(c: char) {
    '0' <= c <= '9'
  }

  /** How far a text goes before the first separator. */
  function Until(text: string, separator: char): (n: nat)
    ensures n <= |text| && (n < |text| ==> text[n] == separator)
    ensures separator !in text[..n]
  {
    if text == [] || text[0] == separator then 0 else 1 + Until(text[1..], separator)
  }

  function Split(text: string, separator: char): (parts: seq<string>)
    ensures parts != []
    decreases |text|
  {
    var n := Until(text, separator);
    if n == |text| then [text] else [text[..n]] + Split(text[n + 1..], separator)
  }

  function Join(parts: seq<string>, separator: char): string
    requires parts != []
  {
    if |parts| == 1 then parts[0] else parts[0] + ([separator] + Join(parts[1..], separator))
  }

  lemma {:induction false} UntilEnds(head: string, rest: string, separator: char)
    requires separator !in head && (rest == "" || rest[0] == separator)
    ensures Until(head + rest, separator) == |head|
  {
    if head == "" {
      assert head + rest == rest;
    } else {
      assert (head + rest)[1..] == head[1..] + rest;
      UntilEnds(head[1..], rest, separator);
    }
  }

  lemma SplitAtSeparator(head: string, tail: string, separator: char)
    requires separator !in head
    ensures Split(head + ([separator] + tail), separator) == [head] + Split(tail, separator)
  {
    var text := head + ([separator] + tail);
    UntilEnds(head, [separator] + tail, separator);
    assert text[..|head|] == head && text[|head| + 1..] == tail;
  }

  lemma {:induction false} PartsHoldNoSeparator(text: string, separator: char, i: nat)
    requires i < |Split(text, separator)|
    ensures separator !in Split(text, separator)[i]
    decreases |text|
  {
    var n := Until(text, separator);
    assert text[..n] == text || n < |text|;
    if n < |text| && i > 0 {
      PartsHoldNoSeparator(text[n + 1..], separator, i - 1);
    }
  }

  lemma {:induction false} SplitTextJoins(text: string, separator: char)
    ensures Join(Split(text, separator), separator) == text
    decreases |text|
  {
    var n := Until(text, separator);
    if n < |text| {
      var head, tail := text[..n], text[n + 1..];
      assert text == head + ([separator] + tail);
      SplitAtSeparator(head, tail, separator);
      SplitTextJoins(tail, separator);
      assert ([head] + Split(tail, separator))[1..] == Split(tail, separator);
    }
  }

  lemma {:induction false} JoinedPartsSplit(parts: seq<string>, separator: char)
    requires parts != [] && forall i :: 0 <= i < |parts| ==> separator !in parts[i]
    ensures Split(Join(parts, separator), separator) == parts
  {
    if |parts| == 1 {
      UntilEnds(parts[0], "", separator);
      assert parts[0] + "" == parts[0];
    } else {
      SplitAtSeparator(parts[0], Join(parts[1..], separator), separator);
      JoinedPartsSplit(parts[1..], separator);
      assert parts == [parts[0]] + parts[1..];
    }
  }

  // ---- Words -----------------------------------------------------------------------------------------

  /** White space as Unicode defines it. */
  predicate IsSpace(c: char) {
    var n := c as int;
    || 0x9 <= n <= 0xD || n == 0x20 || n == 0x85 || n == 0xA0 || n == 0x1680 || 0x2000 <= n <= 0x200A
    || n == 0x2028 || n == 0x2029 || n == 0x202F || n == 0x205F || n == 0x3000
  }

  predicate IsWord(word: string) {
    word != "" && forall i :: 0 <= i < |word| ==> !IsSpace(word[i])
  }

  ghost predicate Words(words: seq<string>) {
    forall i :: 0 <= i < |words| ==> IsWord(words[i])
  }

  function WordLength(text: string): (n: nat)
    ensures n <= |text| && (n < |text| ==> IsSpace(text[n]))
    ensures forall i :: 0 <= i < n ==> !IsSpace(text[i])
  {
    if text == [] || IsSpace(text[0]) then 0 else 1 + WordLength(text[1..])
  }

  function SplitWords(text: string): (words: seq<string>)
    ensures Words(words)
    decreases |text|
  {
    if text == [] then []
    else if IsSpace(text[0]) then SplitWords(text[1..])
    else [text[..WordLength(text)]] + SplitWords(text[WordLength(text)..])
  }

  function JoinWords(words: seq<string>): string {
    if words == [] then "" else Join(words, ' ')
  }

  lemma FirstWord(word: string, rest: string)
    requires IsWord(word) && (rest == "" || IsSpace(rest[0]))
    ensures WordLength(word + rest) == |word|
    ensures (word + rest)[..|word|] == word
    ensures !IsSpace((word + rest)[0])
  {
  }

  lemma WordComesFirst(word: string, rest: string)
    requires IsWord(word) && (rest == "" || IsSpace(rest[0]))
    ensures SplitWords(word + rest) == [word] + SplitWords(rest)
  {
    FirstWord(word, rest);
    assert (word + rest)[|word|..] == rest;
  }

  lemma SpaceIsSkipped(text: string)
    ensures SplitWords(" " + text) == SplitWords(text)
  {
  }

  lemma {:induction false} JoinedWordsSplit(words: seq<string>)
    requires Words(words)
    ensures SplitWords(JoinWords(words)) == words
  {
    if |words| == 1 {
      assert words[0] + "" == words[0];
      WordComesFirst(words[0], "");
    } else if words != [] {
      var rest := JoinWords(words[1..]);
      WordComesFirst(words[0], " " + rest);
      SpaceIsSkipped(rest);
      JoinedWordsSplit(words[1..]);
      assert words == [words[0]] + words[1..];
    }
  }

  // ---- Numbers -----------------------------------------------------------------------------------------

  predicate AllDigits(text: string) {
    forall i :: 0 <= i < |text| ==> IsDigit(text[i])
  }

  function ValueOf(text: string): nat
    requires AllDigits(text)
  {
    if text == [] then 0 else 10 * ValueOf(text[..|text| - 1]) + (text[|text| - 1] as int - '0' as int)
  }

  function Show(value: nat): (text: string)
    ensures text != [] && AllDigits(text)
  {
    if value < 10 then [('0' as int + value) as char]
    else Show(value / 10) + [('0' as int + value % 10) as char]
  }

  lemma {:induction false} ShownNumberIsCanonical(value: nat)
    ensures ValueOf(Show(value)) == value
    ensures value > 0 ==> Show(value)[0] != '0'
    ensures |Show(value)| == 1 <==> value < 10
  {
    if value >= 10 {
      ShownNumberIsCanonical(value / 10);
      assert Show(value)[..|Show(value)| - 1] == Show(value / 10);
    }
  }

  lemma {:induction false} CanonicalNumberIsShown(text: string)
    requires text != [] && AllDigits(text) && (|text| > 1 ==> text[0] != '0')
    ensures Show(ValueOf(text)) == text
    ensures text[0] != '0' ==> ValueOf(text) > 0
  {
    var before, last := text[..|text| - 1], text[|text| - 1];
    if |text| > 1 {
      CanonicalNumberIsShown(before);
      assert ValueOf(text) / 10 == ValueOf(before);
    } else {
      assert before == [];
    }
    assert text == before + [last];
  }
}
