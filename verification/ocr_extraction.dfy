/** The server action `extractText`: the guard on the uploaded file and the
    interpretation of the OCR provider's decoded answer. The HTTP round trip
    itself is a parameter (`ocr`), consulted only once a file is present. */
module OcrExtraction {
  import opened Wrappers

  /** A document uploaded through the form; the model never looks inside it. */
  datatype UploadedFile = UploadedFile(name: string, content: seq<bv8>)

  /** One entry of the provider's `ParsedResults` list. */
  datatype ParsedResult = ParsedResult(parsedText: string)

  /** The provider's decoded JSON answer. */
  datatype OcrResponse = OcrResponse(
    isErroredOnProcessing: bool,
    errorMessage: Option<string>,
    parsedResults: Option<seq<ParsedResult>>)

  const NoFileMessage: string := "No file received!"
  const GenericOcrFailure: string := "OCR processing failed."
  const NoTextFound: string := "No text found."

  // ---------------------------------------------------------------------------
  // String.prototype.trim

  /** The characters ECMAScript's `trim` strips: WhiteSpace (TAB, VT, FF, ZWNBSP
      and every space separator) and LineTerminator (LF, CR, LS, PS). */
  predicate IsJsWhitespace(c: char) {
    c == '\U{9}' || c == '\U{B}' || c == '\U{C}' || c == ' ' || c == '\U{A0}' || c == '\U{FEFF}'
    || c == '\U{1680}' || ('\U{2000}' <= c <= '\U{200A}') || c == '\U{202F}' || c == '\U{205F}'
    || c == '\U{3000}' || c == '\n' || c == '\r' || c == '\U{2028}' || c == '\U{2029}'
  }

  predicate AllWhitespace(s: string) {
    forall k :: 0 <= k < |s| ==> IsJsWhitespace(s[k])
  }

  /** Drops the leading whitespace. */
  function TrimStart(s: string): string {
    if s != [] && IsJsWhitespace(s[0]) then TrimStart(s[1..]) else s
  }

  /** Drops the trailing whitespace. */
  function TrimEnd(s: string): string {
    if s != [] && IsJsWhitespace(s[|s| - 1]) then TrimEnd(s[..|s| - 1]) else s
  }

  /** `TrimStart` keeps the suffix of `s` that starts at its first
      non-whitespace character: everything dropped is whitespace. */
  lemma {:induction false} TrimStartSpec(s: string)
    ensures |TrimStart(s)| <= |s| && TrimStart(s) == s[|s| - |TrimStart(s)|..]
    ensures AllWhitespace(s[..|s| - |TrimStart(s)|])
    ensures TrimStart(s) == [] || !IsJsWhitespace(TrimStart(s)[0])
  {
    if s != [] && IsJsWhitespace(s[0]) {
      TrimStartSpec(s[1..]);
      var d := |s| - |TrimStart(s)|;
      assert s[..d] == [s[0]] + s[1..][..d - 1];
    }
  }

  /** `TrimEnd` keeps the prefix of `s` that ends at its last non-whitespace
      character: everything dropped is whitespace. */
  lemma {:induction false} TrimEndSpec(s: string)
    ensures |TrimEnd(s)| <= |s| && TrimEnd(s) == s[..|TrimEnd(s)|]
    ensures AllWhitespace(s[|TrimEnd(s)|..])
    ensures TrimEnd(s) == [] || !IsJsWhitespace(TrimEnd(s)[|TrimEnd(s)| - 1])
  {
    if s != [] && IsJsWhitespace(s[|s| - 1]) {
      var n := |s| - 1;
      TrimEndSpec(s[..n]);
      var r := |TrimEnd(s)|;
      assert s[r..] == s[..n][r..] + [s[n]];
    }
  }

  /** `s.trim()`: neither end of the result is whitespace, and the result is
      empty exactly when `s` consists of whitespace only. */
  function Trim(s: string): (r: string)
    ensures |r| <= |s|
    ensures r == [] || (!IsJsWhitespace(r[0]) && !IsJsWhitespace(r[|r| - 1]))
    ensures r == [] <==> AllWhitespace(s)
  {
    var t := TrimStart(s);
    TrimStartSpec(s);
    TrimEndSpec(t);
    assert t != [] ==> !AllWhitespace(s) by {
      if t != [] {
        assert s[|s| - |t|] == t[0];
      }
    }
    assert TrimEnd(t) == [] ==> AllWhitespace(s) by {
      if TrimEnd(t) == [] {
        assert s == s[..|s| - |t|] + t;
        assert t[0..] == t;
      }
    }
    assert TrimEnd(t) != [] ==> !IsJsWhitespace(TrimEnd(t)[0]) by {
      if TrimEnd(t) != [] {
        assert TrimEnd(t)[0] == t[0];
      }
    }
    TrimEnd(t)
  }

  /** Leading whitespace makes no difference to `TrimStart`. */
  lemma {:induction false} TrimStartSkips(lead: string, rest: string)
    requires AllWhitespace(lead)
    ensures TrimStart(lead + rest) == TrimStart(rest)
  {
    if lead != [] {
      assert (lead + rest)[0] == lead[0];
      assert (lead + rest)[1..] == lead[1..] + rest;
      assert AllWhitespace(lead[1..]) by {
        forall k | 0 <= k < |lead| - 1 ensures IsJsWhitespace(lead[1..][k]) {
          assert lead[1..][k] == lead[k + 1];
        }
      }
      TrimStartSkips(lead[1..], rest);
    } else {
      assert lead + rest == rest;
    }
  }

  /** Trailing whitespace makes no difference to `TrimEnd`. */
  lemma {:induction false} TrimEndSkips(rest: string, trail: string)
    requires AllWhitespace(trail)
    ensures TrimEnd(rest + trail) == TrimEnd(rest)
  {
    if trail != [] {
      var n := |trail| - 1;
      assert (rest + trail)[|rest + trail| - 1] == trail[n];
      assert (rest + trail)[..|rest + trail| - 1] == rest + trail[..n];
      assert AllWhitespace(trail[..n]) by {
        forall k | 0 <= k < n ensures IsJsWhitespace(trail[..n][k]) {
          assert trail[..n][k] == trail[k];
        }
      }
      TrimEndSkips(rest, trail[..n]);
    } else {
      assert rest + trail == rest;
    }
  }

  /** Trim removes exactly the whitespace padding around a core that does not
      itself start or end with whitespace. */
  lemma {:induction false} TrimOfPadded(lead: string, core: string, trail: string)
    requires AllWhitespace(lead) && AllWhitespace(trail)
    requires core == [] || (!IsJsWhitespace(core[0]) && !IsJsWhitespace(core[|core| - 1]))
    ensures Trim(lead + core + trail) == core
  {
    assert lead + core + trail == lead + (core + trail);
    TrimStartSkips(lead, core + trail);
    if core == [] {
      assert core + trail == [] + trail;
      TrimStartSkips(trail, []);
      assert trail + [] == trail;
    } else {
      assert (core + trail)[0] == core[0];
      TrimEndSkips(core, trail);
    }
  }

  // ---------------------------------------------------------------------------
  // Array.prototype.join(" ")

  function SumLengths(parts: seq<string>): nat {
    if parts == [] then 0 else |parts[0]| + SumLengths(parts[1..])
  }

  /** `parts.join(" ")`: the parts in order with one space between neighbours;
      empty exactly when there is no part or a single empty one. */
  function Join(parts: seq<string>): (r: string)
    ensures |parts| >= 1 ==> |r| == SumLengths(parts) + |parts| - 1
    ensures r == [] <==> (|parts| == 0 || (|parts| == 1 && parts[0] == []))
  {
    if |parts| == 0 then []
    else if |parts| == 1 then parts[0]
    else parts[0] + " " + Join(parts[1..])
  }

  /** Where part `k` starts in `Join(parts)`: the lengths of the parts before it
      plus one separator for each of them. */
  function Offset(parts: seq<string>, k: nat): nat
    requires k <= |parts|
  {
    SumLengths(parts[..k]) + k
  }

  /** The offset of part `k` is one part and one separator further on than
      the offset of part `k - 1` of the tail. */
  lemma OffsetInTail(parts: seq<string>, k: nat)
    requires 0 < k <= |parts|
    ensures Offset(parts, k) == |parts[0]| + 1 + Offset(parts[1..], k - 1)
  {
    assert parts[..k] == [parts[0]] + parts[1..][..k - 1];
  }

  /** The join starts with the first part, followed by a space when more
      parts come. */
  lemma JoinStartsWith(parts: seq<string>)
    requires |parts| >= 1
    ensures |parts[0]| <= |Join(parts)| && Join(parts)[..|parts[0]|] == parts[0]
    ensures |parts| > 1 ==> |parts[0]| < |Join(parts)| && Join(parts)[|parts[0]|] == ' '
  {
    if |parts| > 1 {
      var rest := " " + Join(parts[1..]);
      assert Join(parts) == parts[0] + rest;
      assert (parts[0] + rest)[|parts[0]|] == rest[0];
    }
  }

  /** Past the first part and its separator, the join is the join of the tail. */
  lemma JoinShift(parts: seq<string>, a: nat, b: nat)
    requires |parts| >= 2 && a <= b <= |Join(parts[1..])|
    ensures |parts[0]| + 1 + b <= |Join(parts)|
    ensures Join(parts)[|parts[0]| + 1 + a..|parts[0]| + 1 + b] == Join(parts[1..])[a..b]
    ensures b < |Join(parts[1..])| ==> Join(parts)[|parts[0]| + 1 + b] == Join(parts[1..])[b]
  {
    var head := parts[0] + " ";
    assert Join(parts) == head + Join(parts[1..]);
  }

  /** Part `k` sits in the joined text at `Offset(parts, k)`, and unless it is
      the last part a single space follows it. */
  lemma {:induction false} JoinAt(parts: seq<string>, k: nat)
    requires k < |parts|
    ensures Offset(parts, k) + |parts[k]| <= |Join(parts)|
    ensures Join(parts)[Offset(parts, k)..Offset(parts, k) + |parts[k]|] == parts[k]
    ensures k + 1 < |parts| ==>
      Offset(parts, k) + |parts[k]| < |Join(parts)| && Join(parts)[Offset(parts, k) + |parts[k]|] == ' '
  {
    if k == 0 {
      assert parts[..0] == [];
      JoinStartsWith(parts);
    } else {
      var tail := parts[1..];
      assert parts[k] == tail[k - 1];
      JoinAt(tail, k - 1);
      OffsetInTail(parts, k);
      var o := Offset(tail, k - 1);
      JoinShift(parts, o, o + |parts[k]|);
    }
  }

  // ---------------------------------------------------------------------------
  // extractText

  /** `data.ErrorMessage || "OCR processing failed."`: an absent or empty
      message falls back to the generic one, so the thrown message is never empty. */
  function ProviderErrorMessage(message: Option<string>): (r: string)
    ensures r != []
    ensures message.Some? && message.value != [] ==> r == message.value
    ensures message.None? || message.value == [] ==> r == GenericOcrFailure
  {
    if message.Some? && message.value != [] then message.value else GenericOcrFailure
  }

  /** Each entry's `ParsedText`, trimmed, in provider order. */
  function TrimAll(results: seq<ParsedResult>): (texts: seq<string>)
    ensures |texts| == |results|
    ensures forall k :: 0 <= k < |results| ==> texts[k] == Trim(results[k].parsedText)
  {
    seq(|results|, k requires 0 <= k < |results| => Trim(results[k].parsedText))
  }

  /** `data.ParsedResults?.map(r => r.ParsedText.trim()).join(" ") || "No text found."`:
      never empty, and the sentinel whenever the list is absent or empty. */
  function FullText(results: Option<seq<ParsedResult>>): (r: string)
    ensures r != []
    ensures results.None? || results.value == [] ==> r == NoTextFound
  {
    var joined := if results.Some? then Join(TrimAll(results.value)) else [];
    if joined == [] then NoTextFound else joined
  }

  /** `extractText(file)`: a missing file is rejected before the provider is
      asked; an errored response always fails, whatever else it carries; any
      other response yields a non-empty text. The logged preview is the
      returned text itself. */
  function ExtractText(file: Option<UploadedFile>, ocr: UploadedFile -> OcrResponse)
    : (r: Result<string, string>)
    ensures file.None? ==> r == Failure(NoFileMessage)
    ensures file.Some? && ocr(file.value).isErroredOnProcessing
      ==> r == Failure(ProviderErrorMessage(ocr(file.value).errorMessage))
    ensures r.Success? <==> file.Some? && !ocr(file.value).isErroredOnProcessing
    ensures r.Success? ==> r.value != []
    ensures r.Failure? ==> r.error != []
    ensures file.Some? && !ocr(file.value).isErroredOnProcessing
      ==> r == Success(FullText(ocr(file.value).parsedResults))
  {
    if file.None? then Failure(NoFileMessage)
    else
      var data := ocr(file.value);
      if data.isErroredOnProcessing then Failure(ProviderErrorMessage(data.errorMessage))
      else
        var fullText := FullText(data.parsedResults);
        var preview := fullText;
        Success(preview)
  }

  /** A response that is not errored and whose trimmed texts join to a
      non-empty string yields exactly that string. */
  lemma JoinedTextIsReturned(file: UploadedFile, ocr: UploadedFile -> OcrResponse, results: seq<ParsedResult>)
    requires !ocr(file).isErroredOnProcessing && ocr(file).parsedResults == Some(results)
    requires Join(TrimAll(results)) != []
    ensures ExtractText(Some(file), ocr) == Success(Join(TrimAll(results)))
  {
    assert FullText(Some(results)) == Join(TrimAll(results));
  }

  /** A successful extraction whose join is non-empty is the trimmed texts in
      provider order, each followed by exactly one space except the last: its
      length is the sum of the trimmed lengths plus one per separator, and the
      `k`-th trimmed text sits at `Offset(TrimAll(results), k)`. */
  lemma {:induction false} SuccessLayout(
    file: UploadedFile, ocr: UploadedFile -> OcrResponse, results: seq<ParsedResult>, k: nat)
    requires !ocr(file).isErroredOnProcessing && ocr(file).parsedResults == Some(results)
    requires k < |results| && Join(TrimAll(results)) != []
    ensures ExtractText(Some(file), ocr).Success?
    ensures var text, texts := ExtractText(Some(file), ocr).value, TrimAll(results);
      && |text| == SumLengths(texts) + |results| - 1
      && Offset(texts, k) + |texts[k]| <= |text|
      && text[Offset(texts, k)..Offset(texts, k) + |texts[k]|] == Trim(results[k].parsedText)
      && (k + 1 < |results| ==> Offset(texts, k) + |texts[k]| < |text| && text[Offset(texts, k) + |texts[k]|] == ' ')
  {
    var texts := TrimAll(results);
    JoinedTextIsReturned(file, ocr, results);
    JoinAt(texts, k);
  }

  /** Only an empty join becomes the sentinel: one whitespace-only entry does,
      but two whitespace-only entries join to a single space, which is kept. */
  lemma {:induction false} BlankEntries(a: string, b: string)
    requires AllWhitespace(a) && AllWhitespace(b)
    ensures FullText(Some([ParsedResult(a)])) == NoTextFound
    ensures FullText(Some([ParsedResult(a), ParsedResult(b)])) == " "
  {
    assert Trim(a) == [] && Trim(b) == [];
    var one := TrimAll([ParsedResult(a)]);
    assert one == [[]];
    assert Join(one) == [];
    var two := TrimAll([ParsedResult(a), ParsedResult(b)]);
    assert two == [[], []];
    assert Join(two) == [] + " " + Join(two[1..]);
  }
}
