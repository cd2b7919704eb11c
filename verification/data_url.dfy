/**
 * The `data:` URL of RFC 2397 as the two ends of the connection handle it:
 * the browser's `readAsDataURL` writes `data:<mime>;base64,<encoding>`, and
 * the server keeps the text after the first comma by splitting on every comma
 * and indexing the second piece.
 */
module DataUrl {
  import opened Results
  import Base64

  const Comma: char := ','

  /** The media type `canvas.toBlob` is asked for. */
  const JpegMime: string := "image/jpeg"

  /**
   * The result of `readAsDataURL` on a blob of the given media type: a fixed
   * header around the media type, then four characters per started group of
   * three bytes. It always holds the comma the server splits on.
   */
  function Make(mime: string, blob: Base64.Bytes): (url: string)
    ensures |url| == |"data:;base64,"| + |mime| + 4 * ((|blob| + 2) / 3)
    ensures Comma in url
  {
    "data:" + mime + ";base64" + [Comma] + Base64.Encode(blob)
  }

  /**
   * Python's `str.split(sep)` with an explicit separator: the pieces between
   * separators, so one more piece than there are separators, each free of it.
   */
  function Split(s: string, sep: char): (parts: seq<string>)
    ensures |parts| == 1 + Occurrences(s, sep)
    ensures forall i :: 0 <= i < |parts| ==> sep !in parts[i]
  {
    if s == [] then [[]]
    else
      var rest := Split(s[1..], sep);
      if s[0] == sep then [[]] + rest
      else [[s[0]] + rest[0]] + rest[1..]
  }

  /** How often `c` occurs in `s`. */
  function Occurrences(s: string, c: char): (n: nat)
    ensures n > 0 <==> c in s
  {
    if s == [] then 0 else (if s[0] == c then 1 else 0) + Occurrences(s[1..], c)
  }

  /** `sep.join(parts)`, the inverse of `Split`. */
  function Join(parts: seq<string>, sep: char): string
    requires |parts| >= 1
  {
    if |parts| == 1 then parts[0] else parts[0] + [sep] + Join(parts[1..], sep)
  }

  /** Joining the pieces again gives back the original text. */
  lemma {:induction false} JoinSplit(s: string, sep: char)
    ensures Join(Split(s, sep), sep) == s
  {
    if s != [] {
      JoinSplit(s[1..], sep);
      var rest := Split(s[1..], sep);
      assert s == [s[0]] + s[1..];
      if s[0] == sep {
        assert Split(s, sep) == [[]] + rest;
        JoinCons([], rest, sep);
      } else {
        JoinHead(s[0], rest, sep);
      }
    }
  }

  /** Joining a piece in front of others puts a separator between them. */
  lemma JoinCons(first: string, parts: seq<string>, sep: char)
    requires |parts| >= 1
    ensures Join([first] + parts, sep) == first + [sep] + Join(parts, sep)
  {
    assert ([first] + parts)[1..] == parts;
  }

  /** A character added to the front of the first piece is added to the front of the joined text. */
  lemma JoinHead(c: char, parts: seq<string>, sep: char)
    requires |parts| >= 1
    ensures Join([[c] + parts[0]] + parts[1..], sep) == [c] + Join(parts, sep)
  {
    var q := [[c] + parts[0]] + parts[1..];
    assert q[0] == [c] + parts[0] && q[1..] == parts[1..];
  }

  /** Text without the separator is one piece. */
  lemma {:induction false} SplitNoSeparator(s: string, sep: char)
    requires sep !in s
    ensures Split(s, sep) == [s]
  {
    if s != [] {
      SplitNoSeparator(s[1..], sep);
      assert [s[0]] + s[1..] == s;
    }
  }

  /** Splitting at a separator that joins two texts splits each of them separately. */
  lemma {:induction false} SplitAround(a: string, b: string, sep: char)
    ensures Split(a + [sep] + b, sep) == Split(a, sep) + Split(b, sep)
  {
    if a == [] {
      assert a + [sep] + b == [sep] + b;
      assert ([sep] + b)[1..] == b;
    } else {
      var s := a + [sep] + b;
      assert s[1..] == a[1..] + [sep] + b && s[0] == a[0];
      SplitAround(a[1..], b, sep);
      SplitFirst(s, Split(a[1..], sep), Split(b, sep), sep);
      SplitFirst(a, Split(a[1..], sep), [], sep);
    }
  }

  /**
   * One step of `Split`, with the pieces of the rest written as `left + right`
   * (`left` non-empty): the first character either starts a new piece or joins
   * the first piece of `left`.
   */
  lemma SplitFirst(s: string, left: seq<string>, right: seq<string>, sep: char)
    requires s != [] && left != []
    requires Split(s[1..], sep) == left + right
    ensures s[0] == sep ==> Split(s, sep) == [[]] + left + right
    ensures s[0] != sep ==> Split(s, sep) == [[s[0]] + left[0]] + left[1..] + right
  {
    var rest := left + right;
    assert rest[0] == left[0] && rest[1..] == left[1..] + right;
  }

  /** The text after the first comma and up to the next one: `s.split(",")[1]`. */
  function Payload(s: string): (r: Result<string>)
    ensures r.Ok? <==> Comma in s
    ensures r.Ok? ==> Comma !in r.value
    ensures r.Err? ==> r.error == IndexOutOfRange
  {
    var parts := Split(s, Comma);
    if |parts| < 2 then Err(IndexOutOfRange) else Ok(parts[1])
  }

  /** Text without a comma has no second piece: the index is out of range, there is no empty payload. */
  lemma PayloadWithoutComma(s: string)
    requires Comma !in s
    ensures Payload(s) == Err(IndexOutOfRange)
  {
    SplitNoSeparator(s, Comma);
  }

  /** For `prefix,payload` with a single comma the payload comes back exactly. */
  lemma PayloadAfterComma(prefix: string, payload: string)
    requires Comma !in prefix && Comma !in payload
    ensures Payload(prefix + [Comma] + payload) == Ok(payload)
  {
    SplitAround(prefix, payload, Comma);
    SplitNoSeparator(prefix, Comma);
    SplitNoSeparator(payload, Comma);
  }

  /** A comma inside the payload cuts it: only the text up to that comma is kept. */
  lemma PayloadStopsAtComma(prefix: string, payload: string, tail: string)
    requires Comma !in prefix && Comma !in payload
    ensures Payload(prefix + [Comma] + payload + [Comma] + tail) == Ok(payload)
  {
    SplitAround(prefix + [Comma] + payload, tail, Comma);
    PayloadAfterComma(prefix, payload);
  }

  /** The payload of a URL made by `readAsDataURL` is exactly the base 64 encoding of the blob. */
  lemma PayloadOfMake(mime: string, blob: Base64.Bytes)
    requires Comma !in mime
    ensures Payload(Make(mime, blob)) == Ok(Base64.Encode(blob))
  {
    var prefix, enc := "data:" + mime + ";base64", Base64.Encode(blob);
    assert Comma !in prefix by {
      forall i | 0 <= i < |prefix| ensures prefix[i] != Comma {
        if 5 <= i < 5 + |mime| {
          assert prefix[i] == mime[i - 5];
        }
      }
    }
    assert Comma !in enc by {
      forall i | 0 <= i < |enc| ensures enc[i] != Comma {
        assert Base64.IsEncodingChar(enc[i]);
      }
    }
    PayloadAfterComma(prefix, enc);
  }
}
