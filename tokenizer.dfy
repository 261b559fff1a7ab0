/**
 * The boundary-safe tokenizer of main.go (`trimContentToWords`) and the
 * whitespace splitting it relies on (Go's `strings.Fields`).
 *
 * Text is a `string`; one character stands for one byte, so lengths are byte
 * counts for ASCII text.
 */
module Tokenizer {
  import opened Outcomes

  /**
   * The separator bytes of `strings.Fields` below 0x80: tab, newline, vertical
   * tab, form feed, carriage return and blank. Bytes from 0x80 up belong to
   * multi-byte characters, which this model does not decode.
   */
  predicate IsSpace(c: char)
  {
    c == ' ' || ('\t' <= c <= '\r')
  }

  /** No separator in `s` other than the blank `' '`. */
  predicate BlankSeparated(s: string)
  {
    forall i :: 0 <= i < |s| && IsSpace(s[i]) ==> s[i] == ' '
  }

  /** A non-empty run of non-separators. */
  predicate IsWord(w: string)
  {
    |w| > 0 && forall i :: 0 <= i < |w| ==> !IsSpace(w[i])
  }

  /** Length of the longest separator-free prefix of `s`. */
  function WordEnd(s: string): (k: nat)
    ensures k <= |s|
    ensures forall i :: 0 <= i < k ==> !IsSpace(s[i])
    ensures k < |s| ==> IsSpace(s[k])
  {
    if s == [] || IsSpace(s[0]) then 0 else 1 + WordEnd(s[1..])
  }

  /** Go's `strings.Fields`: the maximal separator-free runs of `s`, in order. */
  function Fields(s: string): (ws: seq<string>)
    decreases |s|
  {
    if s == [] then []
    else if IsSpace(s[0]) then Fields(s[1..])
    else
      var k := WordEnd(s);
      [s[..k]] + Fields(s[k..])
  }

  /** Length of the longest separator-free suffix of `s`. */
  function TrailingWordLen(s: string): (k: nat)
    ensures k <= |s|
  {
    if s == [] || IsSpace(s[|s| - 1]) then 0 else 1 + TrailingWordLen(s[..|s| - 1])
  }

  /** What `trimContentToWords` returns: the words and the bytes they account for. */
  datatype Trimmed = Trimmed(words: seq<string>, length: nat)

  /**
   * main.go:28-48. At end of stream every field is returned and every byte
   * consumed. Otherwise two nested tests, on the byte before last and on the
   * last byte, decide whether the last field is withheld; the consumed length
   * is then shortened by that field's length. Indexing `input[strLen-2]` fails
   * on fewer than two bytes, and withholding a field fails when there is none.
   */
  function TrimContentToWords(input: string, isEOF: bool): (r: Result<Trimmed>)
    ensures isEOF ==> r == Ok(Trimmed(Fields(input), |input|))
    ensures !isEOF && |input| < 2 ==> r == Err(IndexOutOfRange)
    ensures r.Ok? ==> r.value.length <= |input|
    ensures r.Ok? ==> r.value.words <= Fields(input)
  {
    var fields := Fields(input);
    var n := |input|;
    if isEOF then Ok(Trimmed(fields, n))
    else if n < 2 then Err(IndexOutOfRange)
    else if input[n - 2] != ' ' then
      if input[n - 1] != ' ' then WithholdLast(input, fields)
      else Ok(Trimmed(fields, n))
    else if input[n - 1] != ' ' then WithholdLast(input, fields)
    else Ok(Trimmed(fields, n))
  }

  /**
   * main.go:39-40 and main.go:43-44: drop the last of `fields` and withhold its
   * length; `output[splitLen-1]` fails when there is no field.
   */
  function WithholdLast(input: string, fields: seq<string>): (r: Result<Trimmed>)
    requires fields == Fields(input)
    ensures fields == [] <==> r == Err(IndexOutOfRange)
    ensures r.Ok? ==> r.value.words == fields[..|fields| - 1]
    ensures r.Ok? ==> r.value.length + |fields[|fields| - 1]| == |input|
  {
    if fields == [] then Err(IndexOutOfRange)
    else
      var diff := |fields[|fields| - 1]|;
      FieldLengthBound(input, |fields| - 1);
      Ok(Trimmed(fields[..|fields| - 1], |input| - diff))
  }

  // ---------------------------------------------------------------------------
  // Lemmas about Fields
  // ---------------------------------------------------------------------------

  /**
   * Every field is a word no longer than the text, and a field as long as the
   * text is the whole text.
   */
  lemma {:induction false} FieldsAreWords(s: string)
    ensures forall j :: 0 <= j < |Fields(s)| ==>
      IsWord(Fields(s)[j]) && |Fields(s)[j]| <= |s| && (|Fields(s)[j]| == |s| ==> IsWord(s))
    decreases |s|
  {
    if s == [] {
    } else if IsSpace(s[0]) {
      FieldsAreWords(s[1..]);
    } else {
      var k := WordEnd(s);
      FieldsAreWords(s[k..]);
      assert k == |s| ==> s[..k] == s;
    }
  }

  /** A text has no field exactly when it is all separators. */
  lemma {:induction false} FieldsEmpty(s: string)
    ensures Fields(s) == [] <==> forall i :: 0 <= i < |s| ==> IsSpace(s[i])
    decreases |s|
  {
    if s != [] && IsSpace(s[0]) {
      FieldsEmpty(s[1..]);
      if forall i :: 0 <= i < |s[1..]| ==> IsSpace(s[1..][i]) {
        forall i | 0 <= i < |s| ensures IsSpace(s[i]) {
          if i > 0 { assert s[i] == s[1..][i - 1]; }
        }
      }
    }
  }

  lemma FieldLengthBound(s: string, j: nat)
    requires j < |Fields(s)|
    ensures |Fields(s)[j]| <= |s|
  {
    FieldsAreWords(s);
  }

  /** The first word of `a` does not run into `b` when `a` has a separator after it. */
  lemma {:induction false} WordEndAppend(a: string, b: string)
    requires WordEnd(a) < |a|
    ensures WordEnd(a + b) == WordEnd(a)
    decreases |a|
  {
    if IsSpace(a[0]) {
    } else {
      assert (a + b)[1..] == a[1..] + b;
      WordEndAppend(a[1..], b);
    }
  }

  /** Splitting right after a separator splits the fields. */
  lemma {:induction false} FieldsAppend(a: string, b: string)
    requires a == [] || IsSpace(a[|a| - 1])
    ensures Fields(a + b) == Fields(a) + Fields(b)
    decreases |a|
  {
    if a == [] {
      assert a + b == b;
    } else if IsSpace(a[0]) {
      assert (a + b)[1..] == a[1..] + b;
      FieldsAppend(a[1..], b);
    } else {
      var k := WordEnd(a);
      assert k < |a|;
      assert Fields(a + b) == [a[..k]] + Fields(a[k..] + b) by {
        WordEndAppend(a, b);
        assert (a + b)[..k] == a[..k];
        assert (a + b)[k..] == a[k..] + b;
      }
      FieldsAppend(a[k..], b);
    }
  }

  /** A word is its own only field. */
  lemma FieldsOfWord(w: string)
    requires IsWord(w)
    ensures Fields(w) == [w]
  {
    assert WordEnd(w) == |w|;
    assert w[..|w|] == w;
    assert w[|w|..] == [];
  }

  /** A text ending in a non-separator ends in a field that is its trailing word. */
  lemma TrailingField(s: string, t: nat)
    requires |s| > 0 && !IsSpace(s[|s| - 1]) && t == TrailingWordLen(s)
    ensures t >= 1 && Fields(s) == Fields(s[..|s| - t]) + [s[|s| - t..]]
  {
    var k := |s| - t;
    assert k < |s| && (k == 0 || IsSpace(s[k - 1])) && IsWord(s[k..]) by {
      TrailingWord(s);
    }
    FieldsCut(s, k);
  }

  /** Cutting before a final word that follows a separator (or starts the text) splits the fields. */
  lemma FieldsCut(s: string, k: nat)
    requires k < |s| && (k == 0 || IsSpace(s[k - 1])) && IsWord(s[k..])
    ensures Fields(s) == Fields(s[..k]) + [s[k..]]
  {
    var p, w := s[..k], s[k..];
    assert p == [] || IsSpace(p[|p| - 1]) by {
      if p != [] { assert p[|p| - 1] == s[k - 1]; }
    }
    FieldsWordAfter(p, w);
    assert p + w == s;
  }

  /** The trailing word is a run of non-separators after a separator or the start. */
  lemma {:induction false} TrailingWord(s: string)
    ensures var k := TrailingWordLen(s);
      && (forall i :: |s| - k <= i < |s| ==> !IsSpace(s[i]))
      && (k < |s| ==> IsSpace(s[|s| - k - 1]))
      && (|s| > 0 && !IsSpace(s[|s| - 1]) ==> k >= 1 && IsWord(s[|s| - k..]))
    decreases |s|
  {
    if s != [] && !IsSpace(s[|s| - 1]) {
      var s' := s[..|s| - 1];
      TrailingWord(s');
      var k := TrailingWordLen(s);
      assert k == 1 + TrailingWordLen(s');
      forall i | |s| - k <= i < |s| ensures !IsSpace(s[i]) {
        if i < |s| - 1 { assert s[i] == s'[i]; }
      }
      if k < |s| { assert s[|s| - k - 1] == s'[|s'| - TrailingWordLen(s') - 1]; }
      var w := s[|s| - k..];
      forall i | 0 <= i < |w| ensures !IsSpace(w[i]) { assert w[i] == s[|s| - k + i]; }
    }
  }

  /** A word after a separator (or at the start) is the last field. */
  lemma FieldsWordAfter(p: string, w: string)
    requires p == [] || IsSpace(p[|p| - 1])
    requires IsWord(w)
    ensures Fields(p + w) == Fields(p) + [w]
  {
    FieldsAppend(p, w);
    FieldsOfWord(w);
  }

  /** A text whose first `k` characters are not separators has a field of length `k` or more. */
  lemma LongFirstField(s: string, k: nat)
    requires 0 < k <= |s|
    requires forall i :: 0 <= i < k ==> !IsSpace(s[i])
    ensures |Fields(s)| > 0 && |Fields(s)[0]| >= k
  {
    assert Fields(s)[0] == s[..WordEnd(s)];
  }

  // ---------------------------------------------------------------------------
  // Lemmas about TrimContentToWords
  // ---------------------------------------------------------------------------

  /**
   * main.go:37-46: the two nested tests collapse to one, on the last byte. The
   * byte before last does not matter: before end of stream the last field is
   * withheld exactly when the last byte is not a blank, the consumed length
   * then drops by its length, and the call fails when there is no field.
   */
  lemma TrimWithholdsLastField(input: string)
    requires |input| >= 2
    ensures var r := TrimContentToWords(input, false);
      var fs := Fields(input);
      if input[|input| - 1] == ' ' then r == Ok(Trimmed(fs, |input|))
      else if fs == [] then r == Err(IndexOutOfRange)
      else r == Ok(Trimmed(fs[..|fs| - 1], |input| - |fs[|fs| - 1]|))
  {
    var n := |input|;
    if input[n - 1] != ' ' {
      assert TrimContentToWords(input, false) == WithholdLast(input, Fields(input));
    }
  }

  /**
   * A read that is not the last consumes nothing only when the whole buffer is
   * one unfinished word.
   */
  lemma TrimNothingConsumed(input: string)
    requires TrimContentToWords(input, false).Ok?
    requires TrimContentToWords(input, false).value.length == 0
    ensures IsWord(input)
  {
    FieldsAreWords(input);
  }

  /**
   * With blank separators only, a read that is not the last and is at least two
   * bytes long never fails; the words returned are exactly the fields of the
   * consumed prefix, that prefix ends in a blank unless it is empty, and it is
   * empty only when the whole buffer is one unfinished word.
   */
  lemma TrimConsumesWholeWords(input: string)
    requires |input| >= 2 && BlankSeparated(input)
    ensures var r := TrimContentToWords(input, false);
      && r.Ok?
      && r.value.words == Fields(input[..r.value.length])
      && (r.value.length > 0 ==> input[r.value.length - 1] == ' ')
      && (r.value.length == 0 ==> forall i :: 0 <= i < |input| ==> !IsSpace(input[i]))
  {
    var n := |input|;
    if input[n - 1] == ' ' {
      assert input[..n] == input;
    } else {
      var t := TrailingWordLen(input);
      TrailingField(input, t);
      TrailingWord(input);
      assert Fields(input)[|Fields(input)| - 1] == input[n - t..];
      assert Fields(input)[..|Fields(input)| - 1] == Fields(input[..n - t]);
      if t == n {
        assert input[n - t..] == input;
      }
    }
  }

  /**
   * The tokenizer counts only `' '` as a boundary: a buffer ending in a newline
   * after a word withholds that word but consumes one of its bytes, so the
   * words returned are not the fields of the consumed prefix.
   */
  lemma NewlineEndMiscounts()
    ensures TrimContentToWords("ab\n", false) == Ok(Trimmed([], 1))
    ensures Fields("ab\n"[..1]) == ["a"]
  {
    var s := "ab\n";
    assert WordEnd(s[2..]) == 0;
    assert WordEnd(s[1..]) == 1 by { assert s[1..][1..] == s[2..]; }
    assert WordEnd(s) == 2;
    assert s[2..][1..] == [];
    assert Fields(s[2..]) == [];
    assert s[..2] == "ab";
    assert Fields(s) == [s[..2]] + Fields(s[2..]);
    assert s[..1] == "a";
    FieldsOfWord("a");
  }
}
