/**
 * The single-consumer pipeline of main.go: a chunked reader that feeds words to
 * the streaming unique-tracker `processWords`. The word channel between the two
 * goroutines becomes the sequence of words sent.
 */
module Stream {
  import opened Outcomes
  import opened WordSet
  import opened CandidateQueue
  import opened Tokenizer
  import opened FileReading

  /** The first word that occurs exactly once; `Front()` of an empty list otherwise. */
  function FirstUnique(words: seq<string>): Result<string>
  {
    var queue := Survivors(words, Id);
    if queue == [] then Err(NilFront) else Ok(queue[0])
  }

  /**
   * What the answer means: it is the first word whose only occurrence it is,
   * and there is none exactly when no word occurs once.
   */
  lemma FirstUniqueIsFirst(words: seq<string>)
    ensures FirstUnique(words) == Err(NilFront) <==>
      forall i :: 0 <= i < |words| ==> Occurrences(words, Id, words[i]) != 1
    ensures FirstUnique(words).Ok? ==>
      exists i :: 0 <= i < |words| && words[i] == FirstUnique(words).value
        && Occurrences(words, Id, words[i]) == 1
        && forall j :: 0 <= j < i ==> Occurrences(words, Id, words[j]) != 1
  {
    FirstSurvivor(words, Id);
  }

  /**
   * main.go:50-67: keep a queue of the words seen once so far and a set of all
   * words seen; answer the front of the queue.
   */
  method ProcessWords(words: seq<string>) returns (r: Result<string>)
    ensures r == FirstUnique(words)
  {
    var queue: seq<string> := [];
    var seen := new WordHashSet();
    var i := 0;
    while i < |words|
      invariant 0 <= i <= |words|
      invariant queue == Survivors(words[..i], Id)
      invariant seen.Members() == KeySet(words[..i], Id)
    {
      assert words[..i + 1] == words[..i] + [words[i]];
      queue := Observe(queue, seen, words[i], Id, words[..i]);
      i := i + 1;
    }
    assert words[..i] == words;
    if queue == [] {
      r := Err(NilFront);
    } else {
      r := Ok(queue[0]);
    }
  }

  /** The text contains a field at least `len` long. */
  ghost predicate HasFieldOfAtLeast(text: string, len: nat)
  {
    exists j :: 0 <= j < |Fields(text)| && |Fields(text)[j]| >= len
  }

  /** The text read so far ends after a blank (or nothing was read). */
  ghost predicate AtWordBoundary(content: string, start: nat, p: nat)
    requires start <= p <= |content|
  {
    p == start || content[p - 1] == ' '
  }

  /**
   * The last pass of the read loop: the fields of the final buffer complete
   * the fields of the text.
   */
  lemma ReadLastBuffer(content: string, start: nat, p: nat)
    requires start <= p <= |content|
    requires AtWordBoundary(content, start, p)
    ensures Fields(content[start..p]) + Fields(content[p..]) == Fields(content[start..])
  {
    assert content[start..] == content[start..p] + content[p..];
    FieldsAppend(content[start..p], content[p..]);
  }

  /**
   * A pass of the read loop over blank-separated text that is not the last,
   * with a buffer of two bytes or more: the tokenizer succeeds, the words it
   * returns extend the fields read so far to the fields of everything
   * consumed, what is consumed ends after a blank, and nothing is consumed only
   * when the text has a field no shorter than the buffer.
   */
  lemma ReadMiddleBuffer(content: string, start: nat, p: nat, n: nat)
    requires start <= p && p + n < |content| && n >= 2
    requires BlankSeparated(content[start..])
    requires AtWordBoundary(content, start, p)
    ensures var t := TrimContentToWords(content[p..p + n], false);
      && t.Ok?
      && t.value.length <= n
      && Fields(content[start..p]) + t.value.words == Fields(content[start..p + t.value.length])
      && AtWordBoundary(content, start, p + t.value.length)
      && (t.value.length == 0 ==> HasFieldOfAtLeast(content[p..], n) && HasFieldOfAtLeast(content[start..], n))
  {
    var chunk := content[p..p + n];
    BlankSlice(content, start, p, n);
    TrimConsumesWholeWords(chunk);
    var len := TrimContentToWords(chunk, false).value.length;
    ConsumedFields(content, start, p, n, len);
    if len == 0 {
      assert forall i :: p <= i < p + n ==> !IsSpace(content[i]) by {
        assert forall i :: p <= i < p + n ==> content[i] == chunk[i - p];
      }
      LongFieldAhead(content, start, p, n);
    } else {
      assert content[p + len - 1] == chunk[len - 1];
    }
  }

  lemma BlankSlice(content: string, start: nat, p: nat, n: nat)
    requires start <= p && p + n <= |content|
    requires BlankSeparated(content[start..])
    ensures BlankSeparated(content[p..p + n])
  {
    var chunk := content[p..p + n];
    forall i | 0 <= i < |chunk| ensures IsSpace(chunk[i]) ==> chunk[i] == ' ' {
      assert chunk[i] == content[start..][p - start + i];
    }
  }

  /** The fields read so far, then the fields of a consumed prefix of the buffer. */
  lemma ConsumedFields(content: string, start: nat, p: nat, n: nat, len: nat)
    requires start <= p && p + n <= |content| && len <= n
    requires AtWordBoundary(content, start, p)
    ensures Fields(content[start..p]) + Fields(content[p..p + n][..len]) == Fields(content[start..p + len])
  {
    assert content[start..p + len] == content[start..p] + content[p..p + n][..len];
    FieldsAppend(content[start..p], content[p..p + n][..len]);
  }

  lemma LongFieldAhead(content: string, start: nat, p: nat, n: nat)
    requires start <= p && p + n <= |content| && n > 0
    requires AtWordBoundary(content, start, p)
    requires forall i :: p <= i < p + n ==> !IsSpace(content[i])
    ensures HasFieldOfAtLeast(content[p..], n) && HasFieldOfAtLeast(content[start..], n)
  {
    var done := content[start..p];
    assert content[start..] == done + content[p..];
    FieldsAppend(done, content[p..]);
    assert forall i :: 0 <= i < n ==> content[p..][i] == content[p + i];
    LongFirstField(content[p..], n);
    assert |Fields(content[p..])[0]| >= n;
    var j := |Fields(done)|;
    assert Fields(content[start..])[j] == Fields(content[p..])[0];
  }

  /**
   * One pass of the read loop over blank-separated text, from a word boundary,
   * reading `n` bytes: either the tokenizer's words extend the fields read so
   * far to the fields of everything consumed, or the buffer was shorter than
   * two bytes, or the text has a field no shorter than the buffer.
   */
  lemma ReadPass(content: string, start: nat, p: nat, n: nat, eof: bool, t: Result<Trimmed>, next: nat)
    requires start <= p && p + n <= |content| && (eof <==> p + n == |content|)
    requires BlankSeparated(content[start..]) && AtWordBoundary(content, start, p)
    requires t == TrimContentToWords(content[p..p + n], eof)
    requires t.Ok? && next == (if eof then |content| else p + t.value.length)
    ensures next <= |content|
    ensures eof || t.value.length > 0 ==>
      && Fields(content[start..p]) + t.value.words == Fields(content[start..next])
      && (!eof ==> AtWordBoundary(content, start, next))
  {
    if eof {
      ReadLastBuffer(content, start, p);
      assert content[p..] == content[p..p + n];
      assert content[start..p + n] == content[start..];
    } else {
      ReadMiddleBuffer(content, start, p, n);
    }
  }

  /**
   * A pass over blank-separated text from a word boundary fails, or consumes
   * nothing, only when the buffer is shorter than two bytes or a field no
   * shorter than the buffer lies ahead, in the text not yet consumed.
   */
  lemma ReadPassFails(content: string, start: nat, p: nat, n: nat, eof: bool)
    requires start <= p && p + n <= |content| && (eof <==> p + n == |content|)
    requires BlankSeparated(content[start..]) && AtWordBoundary(content, start, p)
    ensures var t := TrimContentToWords(content[p..p + n], eof);
      t.Err? || (!eof && t.value.length == 0) ==> n < 2 || HasFieldOfAtLeast(content[p..], n)
    ensures var t := TrimContentToWords(content[p..p + n], eof);
      t.Err? || (!eof && t.value.length == 0) ==> n < 2 || HasFieldOfAtLeast(content[start..], n)
  {
    if !eof && n >= 2 {
      ReadMiddleBuffer(content, start, p, n);
    }
  }

  /**
   * One pass of the read loop of main.go:78-97: fill the buffer, tokenize it,
   * and unless this was the last buffer seek back over the bytes the tokenizer
   * did not consume. Returns the words to send. The Go loop would repeat a pass
   * that consumes nothing forever; here that pass reports `Stalled`.
   * Over blank-separated text read from a word boundary, the words returned
   * extend the fields read so far to the fields of everything now consumed.
   */
  method ReadChunk(reader: FileReader, buffer: array<char>, ghost start: nat)
    returns (step: Result<seq<string>>, eof: bool)
    requires reader.Valid() && start <= reader.bytesRead
    modifies reader, buffer
    ensures reader.Valid() && start <= reader.bytesRead
    ensures var p := old(reader.bytesRead);
      var n := if buffer.Length <= |reader.content| - p then buffer.Length else |reader.content| - p;
      var t := TrimContentToWords(reader.content[p..p + n], eof);
      && (eof <==> p + n == |reader.content|)
      && (step.Ok? ==> t.Ok? && step.value == t.value.words)
      && (step.Ok? && eof ==> reader.bytesRead == |reader.content|)
      && (step.Ok? && !eof ==> reader.bytesRead == p + t.value.length > p)
      && (step.Err? <==> t.Err? || (!eof && t.value.length == 0))
      && (step.Err? ==> step.fault == (if t.Err? then t.fault else Stalled))
    ensures var p := old(reader.bytesRead);
      BlankSeparated(reader.content[start..]) && AtWordBoundary(reader.content, start, p) ==>
        && (step.Ok? ==>
              && Fields(reader.content[start..p]) + step.value == Fields(reader.content[start..reader.bytesRead])
              && (!eof ==> AtWordBoundary(reader.content, start, reader.bytesRead)))
        && (step.Err? ==> buffer.Length < 2 || HasFieldOfAtLeast(reader.content[start..], buffer.Length))
  {
    ghost var p := reader.bytesRead;
    ghost var content := reader.content;
    var n;
    n, eof := reader.Read(buffer);
    var trimmed := TrimContentToWords(buffer[..n], eof);
    assert trimmed == TrimContentToWords(content[p..p + n], eof);
    ghost var blank := BlankSeparated(content[start..]) && AtWordBoundary(content, start, p);
    if blank {
      ReadPassFails(content, start, p, n, eof);
    }
    if trimmed.Err? {
      return Err(trimmed.fault), eof;
    }
    var words, newLen := trimmed.value.words, trimmed.value.length;
    if !eof && newLen == 0 {
      // Seeking back by the whole buffer would return to where this read began.
      return Err(Stalled), eof;
    }
    if !eof && newLen != n {
      reader.Seek(newLen as int - n as int);
    }
    step := Ok(words);
    if blank {
      ReadPass(content, start, p, n, eof, trimmed, reader.bytesRead);
    }
  }

  /**
   * main.go:69-106: read the file a buffer at a time, send the words of each
   * buffer, and stop at end of file with the answer of `processWords`. `sent`
   * is the sequence of words sent on the word channel. Over blank-separated
   * text whose fields are all shorter than the buffer, the words sent are
   * exactly the fields of the text.
   */
  method FindUniqueFromStream(reader: FileReader, bufSize: nat)
    returns (r: Result<string>, ghost sent: seq<string>)
    requires reader.Valid()
    modifies reader
    ensures reader.Valid()
    ensures r.Ok? || r.fault == NilFront ==> reader.bytesRead == |reader.content| && r == FirstUnique(sent)
    ensures var text := reader.content[old(reader.bytesRead)..];
      BlankSeparated(text) && bufSize >= 2 && !HasFieldOfAtLeast(text, bufSize) ==>
        sent == Fields(text) && r == FirstUnique(Fields(text))
  {
    ghost var start := reader.bytesRead;
    ghost var content := reader.content;
    ghost var blank := BlankSeparated(content[start..]);
    var buffer := new char[bufSize];
    var wordStream: seq<string> := [];
    while true
      invariant reader.Valid() && reader.content == content && start <= reader.bytesRead
      invariant blank ==> wordStream == Fields(content[start..reader.bytesRead])
      invariant blank ==> AtWordBoundary(content, start, reader.bytesRead)
      invariant buffer.Length == bufSize
      decreases |content| - reader.bytesRead
    {
      var step, eof := ReadChunk(reader, buffer, start);
      if step.Err? {
        return Err(step.fault), wordStream;
      }
      wordStream := wordStream + step.value;
      if eof {
        break;
      }
    }
    assert content[start..reader.bytesRead] == content[start..];
    sent := wordStream;
    r := ProcessWords(wordStream);
  }
}
