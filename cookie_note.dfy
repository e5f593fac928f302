/**
 * The persisted note of the extension troubleshooter: saveElementsToCookies writes the
 * list of already-disabled extension names as a `disabledExtensions` cookie, and
 * loadElementsFromCookies runs decodeURIComponent over the `document.cookie` string and reads
 * the note back out of it. The JSON text of the list is the opaque `payload`. The reading
 * rules take the cookie's `name=` prefix as a parameter; the script uses `Name`.
 */
module CookieNote {
  import opened Wrappers
  import opened JsBuiltins

  const Name: string := "disabledExtensions="

  /** The string saveElementsToCookies assigns to `document.cookie` (one year of retention). */
  function Assignment(payload: string): string {
    Name + payload + "; path=/; max-age=31536000"
  }

  /** The name-value pair the browser keeps from an assignment: the text before the first `;` (section 5.2 of RFC 6265). */
  function StoredPair(assignment: string): string {
    Split(assignment, ';')[0]
  }

  /** What the `document.cookie` getter returns: the stored name-value pairs joined by "; ". */
  function CookieString(pairs: seq<string>): string {
    if pairs == [] then []
    else if |pairs| == 1 then pairs[0]
    else pairs[0] + "; " + CookieString(pairs[1..])
  }

  /** The getter string of two non-empty groups of pairs is the first group's, "; ", then the second's. */
  lemma {:induction false} CookieStringAppend(xs: seq<string>, ys: seq<string>)
    requires xs != [] && ys != []
    ensures CookieString(xs + ys) == CookieString(xs) + "; " + CookieString(ys)
  {
    assert (xs + ys)[0] == xs[0] && (xs + ys)[1..] == xs[1..] + ys;
    if |xs| > 1 {
      CookieStringAppend(xs[1..], ys);
    }
  }

  /* ------------------------------------------------------- URI decoding */

  predicate IsHexDigit(c: char) {
    '0' <= c <= '9' || 'a' <= c <= 'f' || 'A' <= c <= 'F'
  }

  function HexValue(c: char): (v: nat)
    requires IsHexDigit(c)
    ensures v < 16
  {
    if '0' <= c <= '9' then c as int - '0' as int
    else if 'a' <= c <= 'f' then c as int - 'a' as int + 10
    else c as int - 'A' as int + 10
  }

  /**
   * `decodeURIComponent(s)`: every `%XY` escape is replaced by the character with code XY;
   * a `%` not followed by two hex digits is a URIError (None). Escapes of bytes 0x80 and above
   * start UTF-8 sequences, which this model reports as errors too.
   */
  function DecodeUri(s: string): Option<string> {
    if s == [] then Some([])
    else if s[0] != '%' then
      match DecodeUri(s[1..])
      case None => None
      case Some(t) => Some([s[0]] + t)
    else if |s| < 3 || !IsHexDigit(s[1]) || !IsHexDigit(s[2]) then None
    else
      var b := HexValue(s[1]) * 16 + HexValue(s[2]);
      if b >= 0x80 then None
      else
        match DecodeUri(s[3..])
        case None => None
        case Some(t) => Some([b as char] + t)
  }

  /** Text without `%` decodes to itself. */
  lemma {:induction false} DecodePlain(s: string)
    requires '%' !in s
    ensures DecodeUri(s) == Some(s)
  {
    if s != [] {
      DecodePlain(s[1..]);
      assert [s[0]] + s[1..] == s;
    }
  }

  /** A character other than `%` is copied and decoding goes on after it. */
  lemma DecodeKept(c: char, t: string)
    requires c != '%'
    ensures DecodeUri([c] + t) == if DecodeUri(t).Some? then Some([c] + DecodeUri(t).value) else None
  {
    assert ([c] + t)[1..] == t;
  }

  /** A `%XY` escape of an ASCII byte becomes that character and decoding goes on after it. */
  lemma DecodeEscaped(x: char, y: char, t: string)
    requires IsHexDigit(x) && IsHexDigit(y) && HexValue(x) * 16 + HexValue(y) < 0x80
    ensures DecodeUri(['%', x, y] + t) ==
      if DecodeUri(t).Some? then Some([(HexValue(x) * 16 + HexValue(y)) as char] + DecodeUri(t).value) else None
  {
    var s := ['%', x, y] + t;
    assert s[0] == '%' && s[1] == x && s[2] == y && s[3..] == t;
  }

  /** The decoding of `a + b` when `a` decodes: the two decodings one after the other, or an error. */
  predicate DecodesInTurn(a: string, b: string)
    requires DecodeUri(a).Some?
  {
    DecodeUri(a + b) == if DecodeUri(b).Some? then Some(DecodeUri(a).value + DecodeUri(b).value) else None
  }

  /** One step of DecodeConcat past a character other than `%`. */
  lemma ConcatKeptStep(c: char, t: string, b: string)
    requires c != '%' && DecodeUri(t).Some? && DecodesInTurn(t, b)
    ensures DecodeUri([c] + t).Some? && DecodesInTurn([c] + t, b)
  {
    DecodeKept(c, t);
    assert [c] + t + b == [c] + (t + b);
    DecodeKept(c, t + b);
    if DecodeUri(b).Some? {
      var d, u := DecodeUri(t).value, DecodeUri(b).value;
      assert [c] + (d + u) == ([c] + d) + u;
    }
  }

  /** One step of DecodeConcat past a `%XY` escape. */
  lemma ConcatEscapedStep(x: char, y: char, t: string, b: string)
    requires IsHexDigit(x) && IsHexDigit(y) && HexValue(x) * 16 + HexValue(y) < 0x80
    requires DecodeUri(t).Some? && DecodesInTurn(t, b)
    ensures DecodeUri(['%', x, y] + t).Some? && DecodesInTurn(['%', x, y] + t, b)
  {
    DecodeEscaped(x, y, t);
    assert ['%', x, y] + t + b == ['%', x, y] + (t + b);
    DecodeEscaped(x, y, t + b);
    if DecodeUri(b).Some? {
      var ch := (HexValue(x) * 16 + HexValue(y)) as char;
      var d, u := DecodeUri(t).value, DecodeUri(b).value;
      assert [ch] + (d + u) == ([ch] + d) + u;
    }
  }

  /** Decoding a well-formed text followed by more text decodes the two parts one after the other. */
  lemma {:induction false} DecodeConcat(a: string, b: string)
    requires DecodeUri(a).Some?
    ensures DecodeUri(a + b) == if DecodeUri(b).Some? then Some(DecodeUri(a).value + DecodeUri(b).value) else None
  {
    if a == [] {
      assert a + b == b;
      if DecodeUri(b).Some? {
        assert DecodeUri(a).value + DecodeUri(b).value == DecodeUri(b).value;
      }
    } else if a[0] != '%' {
      assert DecodeUri(a[1..]).Some?;
      DecodeConcat(a[1..], b);
      ConcatKeptStep(a[0], a[1..], b);
      assert [a[0]] + a[1..] == a;
    } else {
      var x, y := a[1], a[2];
      assert DecodeUri(a[3..]).Some?;
      DecodeConcat(a[3..], b);
      ConcatEscapedStep(x, y, a[3..], b);
      assert ['%', x, y] + a[3..] == a;
    }
  }

  /** `encodeURIComponent` keeps these characters and escapes every other one. */
  predicate Unreserved(c: char) {
    'A' <= c <= 'Z' || 'a' <= c <= 'z' || '0' <= c <= '9' || c in "-_.!~*'()"
  }

  function HexDigit(n: nat): (c: char)
    requires n < 16
    ensures IsHexDigit(c) && HexValue(c) == n
  {
    if n < 10 then ('0' as int + n) as char else ('A' as int + n - 10) as char
  }

  predicate Ascii(s: string) {
    forall i :: 0 <= i < |s| ==> s[i] < 0x80 as char
  }

  /** `encodeURIComponent(s)` for ASCII text: each reserved character becomes `%XY`. */
  function EncodeUri(s: string): string
    requires Ascii(s)
  {
    if s == [] then []
    else
      var c := s[0];
      (if Unreserved(c) then [c] else ['%', HexDigit(c as int / 16), HexDigit(c as int % 16)]) + EncodeUri(s[1..])
  }

  /** A character `encodeURIComponent` keeps decodes to itself. */
  lemma DecodeKeptUnit(c: char)
    requires Unreserved(c)
    ensures DecodeUri([c]) == Some([c])
  {
    var none: string := [];
    assert DecodeUri(none) == Some(none);
    assert [c] + none == [c];
    DecodeKept(c, none);
  }

  /** The `%XY` escape of an ASCII character decodes to that character. */
  lemma DecodeEscapedUnit(c: char)
    requires c < 0x80 as char
    ensures DecodeUri(['%', HexDigit(c as int / 16), HexDigit(c as int % 16)]) == Some([c])
  {
    var hi, lo := c as int / 16, c as int % 16;
    assert hi * 16 + lo == c as int;
    var x, y := HexDigit(hi), HexDigit(lo);
    assert HexValue(x) == hi && HexValue(y) == lo;
    var none: string := [];
    assert DecodeUri(none) == Some(none);
    assert ['%', x, y] + none == ['%', x, y];
    DecodeEscaped(x, y, none);
    var ch := (HexValue(x) * 16 + HexValue(y)) as char;
    assert ch == c;
    assert [ch] + none == [c];
  }

  /** Decoding undoes encoding, and the encoded text holds no `;`. */
  lemma {:induction false} DecodeEncode(s: string)
    requires Ascii(s)
    ensures DecodeUri(EncodeUri(s)) == Some(s)
    ensures ';' !in EncodeUri(s)
  {
    if s != [] {
      var c := s[0];
      DecodeEncode(s[1..]);
      var head: string := if Unreserved(c) then [c] else ['%', HexDigit(c as int / 16), HexDigit(c as int % 16)];
      assert EncodeUri(s) == head + EncodeUri(s[1..]);
      if Unreserved(c) {
        DecodeKeptUnit(c);
      } else {
        DecodeEscapedUnit(c);
      }
      DecodeConcat(head, EncodeUri(s[1..]));
      assert [c] + s[1..] == s;
    }
  }

  /* ------------------------------------------------------------ reading */

  /** The inner `while` loop of the reader, as a function of the entry. */
  function TrimLeadingSpaces(c: string): string {
    if c != [] && c[0] == ' ' then TrimLeadingSpaces(c[1..]) else c
  }

  /** The loop drops exactly the leading U+0020 spaces: what remains is a suffix that does not start with one. */
  lemma {:induction false} TrimLeadingSpacesSpec(c: string)
    ensures |TrimLeadingSpaces(c)| <= |c|
    ensures TrimLeadingSpaces(c) == c[|c| - |TrimLeadingSpaces(c)|..]
    ensures forall i :: 0 <= i < |c| - |TrimLeadingSpaces(c)| ==> c[i] == ' '
    ensures TrimLeadingSpaces(c) == [] || TrimLeadingSpaces(c)[0] != ' '
  {
    if c != [] && c[0] == ' ' {
      var t := c[1..];
      TrimLeadingSpacesSpec(t);
      var n := |TrimLeadingSpaces(t)|;
      assert TrimLeadingSpaces(c) == TrimLeadingSpaces(t);
      assert c[|c| - n..] == t[|t| - n..];
      forall i | 0 <= i < |c| - n
        ensures c[i] == ' '
      {
        if i > 0 {
          assert c[i] == t[i - 1];
        }
      }
    }
  }

  /** A cookie entry is the note when, once its leading spaces are dropped, `indexOf(name) === 0`. */
  predicate IsNote(entry: string, name: string) {
    IndexOfSub(TrimLeadingSpaces(entry), name) == 0
  }

  /** The payload of the first note among `entries`, if any. */
  function FirstNote(entries: seq<string>, name: string): Option<string> {
    if entries == [] then None
    else if IsNote(entries[0], name) then Some(TrimLeadingSpaces(entries[0])[|name|..])
    else FirstNote(entries[1..], name)
  }

  /** What loadElementsFromCookies finds in a decoded cookie string: `None` stands for its `[]`. */
  function Lookup(decodedCookie: string, name: string): Option<string> {
    FirstNote(Split(decodedCookie, ';'), name)
  }

  /**
   * The lookup rule: a note is found exactly when some `;`-separated entry is one, and then
   * the payload is what follows the name in the FIRST such entry.
   */
  lemma FirstNoteSpec(entries: seq<string>, name: string)
    ensures FirstNote(entries, name).None? <==> forall i :: 0 <= i < |entries| ==> !IsNote(entries[i], name)
    ensures FirstNote(entries, name).Some? ==>
      exists i :: 0 <= i < |entries| && IsNote(entries[i], name) && (forall k :: 0 <= k < i ==> !IsNote(entries[k], name))
        && TrimLeadingSpaces(entries[i]) == name + FirstNote(entries, name).value
  {
    if FirstNote(entries, name).Some? {
      var i := FirstNoteFound(entries, name);
    } else {
      forall i | 0 <= i < |entries| ensures !IsNote(entries[i], name) {
        NoNoteBefore(entries, name, i);
      }
    }
  }

  /** When no note is read, no entry is a note. */
  lemma {:induction false} NoNoteBefore(entries: seq<string>, name: string, i: nat)
    requires i < |entries| && FirstNote(entries, name).None?
    ensures !IsNote(entries[i], name)
  {
    if i > 0 {
      NoNoteBefore(entries[1..], name, i - 1);
      assert entries[1..][i - 1] == entries[i];
    }
  }

  /** When a note is read, it comes from the first entry that is a note. */
  lemma {:induction false} FirstNoteFound(entries: seq<string>, name: string) returns (i: nat)
    requires FirstNote(entries, name).Some?
    ensures i < |entries| && IsNote(entries[i], name) && (forall k :: 0 <= k < i ==> !IsNote(entries[k], name))
    ensures TrimLeadingSpaces(entries[i]) == name + FirstNote(entries, name).value
  {
    if IsNote(entries[0], name) {
      var c := TrimLeadingSpaces(entries[0]);
      IndexOfSubZero(c, name);
      assert c == name + c[|name|..];
      i := 0;
    } else {
      var j := FirstNoteFound(entries[1..], name);
      i := j + 1;
      assert entries[i] == entries[1..][j];
      forall k | 0 <= k < i ensures !IsNote(entries[k], name) {
        if k > 0 { assert entries[k] == entries[1..][k - 1]; }
      }
    }
  }

  /** What loadElementsFromCookies ends with: a payload or none (its `[]`), or the URIError decoding throws. */
  datatype Loaded = Loaded(payload: Option<string>) | UriError

  /** The reader's result for a `document.cookie` string: decode it, then look the note up. */
  function ReadCookie(cookie: string): Loaded {
    match DecodeUri(cookie)
    case None => UriError
    case Some(decoded) => Loaded(Lookup(decoded, Name))
  }

  /** loadElementsFromCookies: decodes, splits on `;`, strips leading spaces, returns the first note's payload. */
  method Load(cookie: string) returns (r: Loaded)
    ensures DecodeUri(cookie).None? ==> r == UriError
    ensures DecodeUri(cookie).Some? ==> r == Loaded(Lookup(DecodeUri(cookie).value, Name))
  {
    var decoded := DecodeUri(cookie);
    if decoded.None? {
      return UriError;
    }
    var ca := Split(decoded.value, ';');
    var payload := FindNote(ca, Name);
    r := Loaded(payload);
  }

  /** The reader's loop over the cookie entries. */
  method FindNote(ca: seq<string>, name: string) returns (payload: Option<string>)
    ensures payload == FirstNote(ca, name)
  {
    for i := 0 to |ca|
      invariant FirstNote(ca, name) == FirstNote(ca[i..], name)
    {
      var c := ca[i];
      while |c| > 0 && c[0] == ' '
        invariant TrimLeadingSpaces(c) == TrimLeadingSpaces(ca[i])
      {
        c := c[1..];
      }
      FirstNoteStep(ca, name, i);
      if IndexOfSub(c, name) == 0 {
        return Some(c[|name|..]);
      }
    }
    return None;
  }

  /** One step of the reader's loop over the entries. */
  lemma FirstNoteStep(entries: seq<string>, name: string, i: nat)
    requires i < |entries|
    ensures FirstNote(entries[i..], name) ==
      if IsNote(entries[i], name) then Some(TrimLeadingSpaces(entries[i])[|name|..]) else FirstNote(entries[i + 1..], name)
  {
    assert entries[i..][0] == entries[i] && entries[i..][1..] == entries[i + 1..];
  }

  /** A note entry followed by more cookies reads as its payload, for any `;`-free name and payload. */
  lemma NoteReadsBack(name: string, payload: string, attributes: string)
    requires ';' !in name + payload && name != [] && name[0] != ' '
    ensures Lookup(name + payload + ";" + attributes, name) == Some(payload)
  {
    var entry := name + payload;
    assert entry + ";" + attributes == entry + [';'] + attributes;
    SplitPrefix(entry, attributes, ';');
    assert entry[0] == name[0];
    assert TrimLeadingSpaces(entry) == entry;
    IndexOfSubZero(entry, name);
    assert entry[..|name|] == name && entry[|name|..] == payload;
  }

  /** The pair the writer leaves in the cookie jar is the note's name followed by the payload. */
  lemma StoredNote(payload: string)
    requires ';' !in payload
    ensures StoredPair(Assignment(payload)) == Name + payload
  {
    assert Assignment(payload) == (Name + payload) + [';'] + " path=/; max-age=31536000";
    SplitPrefix(Name + payload, " path=/; max-age=31536000", ';');
  }

  /** A lone note entry reads as its payload. */
  lemma NoteAlone(name: string, payload: string)
    requires ';' !in name + payload && name != [] && name[0] != ' '
    ensures Lookup(name + payload, name) == Some(payload)
  {
    var entry := name + payload;
    SplitFree(entry, ';');
    assert entry[0] == name[0];
    assert TrimLeadingSpaces(entry) == entry;
    IndexOfSubZero(entry, name);
    assert entry[..|name|] == name && entry[|name|..] == payload;
  }

  /** Cookies that decode without error and none of whose `;`-separated entries is the note. */
  ghost predicate OtherCookies(pairs: seq<string>) {
    DecodeUri(CookieString(pairs)).Some? && NoNote(DecodeUri(CookieString(pairs)).value, Name)
  }

  /**
   * The getter's string reads as the note's payload when the note's pair decodes to the note's
   * name and payload, the cookies listed before it are other cookies, and the cookies listed
   * after it decode.
   */
  lemma NotePairReadsBack(before: seq<string>, pair: string, payload: string, others: seq<string>)
    requires ';' !in payload && DecodeUri(pair) == Some(Name + payload)
    requires OtherCookies(before) && DecodeUri(CookieString(others)).Some?
    ensures ReadCookie(CookieString(before + [pair] + others)) == Loaded(Some(payload))
  {
    assert ';' !in Name && Name[0] != ' ';
    JarLookup(Name, pair, payload, others);
    var rest := [pair] + others;
    if before == [] {
      assert before + [pair] + others == rest;
    } else {
      assert before + [pair] + others == before + rest;
      CookieStringAppend(before, rest);
      OthersSkipped(CookieString(before), CookieString(rest), Name);
    }
  }

  /** Cookies without a note, listed before the rest, do not change what the rest reads as. */
  lemma OthersSkipped(front: string, back: string, name: string)
    requires DecodeUri(front).Some? && DecodeUri(back).Some? && NoNote(DecodeUri(front).value, name)
    ensures DecodeUri(front + "; " + back).Some?
    ensures Lookup(DecodeUri(front + "; " + back).value, name) == Lookup(DecodeUri(back).value, name)
  {
    DecodeSeparated(front, back);
    var df, db := DecodeUri(front).value, DecodeUri(back).value;
    assert df + "; " + db == df + ";" + (" " + db);
    NotesBeforeSkipped(df, " " + db, name);
    LeadingSpaceSkipped(db, name);
  }

  /** The getter's string with the note's pair first reads as its payload, for any cookie name. */
  lemma JarLookup(name: string, pair: string, payload: string, others: seq<string>)
    requires ';' !in name + payload && name != [] && name[0] != ' '
    requires DecodeUri(pair) == Some(name + payload) && DecodeUri(CookieString(others)).Some?
    ensures DecodeUri(CookieString([pair] + others)).Some?
    ensures Lookup(DecodeUri(CookieString([pair] + others)).value, name) == Some(payload)
  {
    if others == [] {
      assert CookieString([pair] + others) == pair;
      NoteAlone(name, payload);
    } else {
      DecodeJoined(pair, others);
      var d := DecodeUri(CookieString(others)).value;
      assert (name + payload) + "; " + d == name + payload + ";" + (" " + d);
      NoteReadsBack(name, payload, " " + d);
    }
  }

  /** Two decodable texts joined by "; " decode each on its own, the separator staying as it is. */
  lemma DecodeSeparated(a: string, b: string)
    requires DecodeUri(a).Some? && DecodeUri(b).Some?
    ensures DecodeUri(a + "; " + b) == Some(DecodeUri(a).value + "; " + DecodeUri(b).value)
  {
    DecodePlain("; ");
    DecodeConcat(a, "; ");
    DecodeConcat(a + "; ", b);
  }

  /** The getter's string decodes pair by pair, the separators staying as they are. */
  lemma DecodeJoined(pair: string, others: seq<string>)
    requires others != [] && DecodeUri(pair).Some? && DecodeUri(CookieString(others)).Some?
    ensures DecodeUri(CookieString([pair] + others)) == Some(DecodeUri(pair).value + "; " + DecodeUri(CookieString(others)).value)
  {
    assert ([pair] + others)[1..] == others;
    assert CookieString([pair] + others) == pair + "; " + CookieString(others);
    DecodeSeparated(pair, CookieString(others));
  }


  /**
   * Reading back what the writer stored: wherever the browser lists the note's pair among other
   * well-formed cookies, a payload without `;` or `%` reads back unchanged.
   */
  lemma WrittenNoteReadsBack(before: seq<string>, payload: string, others: seq<string>)
    requires ';' !in payload && '%' !in payload
    requires OtherCookies(before) && DecodeUri(CookieString(others)).Some?
    ensures ReadCookie(CookieString(before + [StoredPair(Assignment(payload))] + others)) == Loaded(Some(payload))
  {
    StoredNote(payload);
    assert '%' !in Name + payload;
    DecodePlain(Name + payload);
    NotePairReadsBack(before, Name + payload, payload, others);
  }

  /**
   * The writer does not encode what the reader decodes: a disabled add-on named "100% Dark"
   * makes the stored note unreadable (decodeURIComponent throws on "% D").
   */
  lemma PercentNameFails(payload: string)
    requires payload == "[\"100% Dark\"]"
    ensures ReadCookie(CookieString([StoredPair(Assignment(payload))])) == UriError
  {
    StoredNote(payload);
    var plain := Name + "[\"100";
    var bad := "% Dark\"]";
    assert Name + payload == plain + bad;
    DecodePlain(plain);
    assert DecodeUri(bad) == None;
    DecodeConcat(plain, bad);
  }

  /** The assignment with the payload passed through encodeURIComponent, as the reader expects. */
  function EncodedAssignment(payload: string): string
    requires Ascii(payload)
  {
    Assignment(EncodeUri(payload))
  }

  /**
   * With the payload encoded, any ASCII payload without `;` reads back unchanged, `%` included,
   * wherever the note's pair is listed among other well-formed cookies.
   */
  lemma EncodedNoteReadsBack(before: seq<string>, payload: string, others: seq<string>)
    requires Ascii(payload) && ';' !in payload
    requires OtherCookies(before) && DecodeUri(CookieString(others)).Some?
    ensures ReadCookie(CookieString(before + [StoredPair(EncodedAssignment(payload))] + others)) == Loaded(Some(payload))
  {
    var e := EncodeUri(payload);
    DecodeEncode(payload);
    StoredNote(e);
    assert '%' !in Name;
    DecodePlain(Name);
    DecodeConcat(Name, e);
    NotePairReadsBack(before, Name + e, payload, others);
  }

  /** Entries before the note that are not notes themselves do not change what is read. */
  lemma OtherCookiesAreSkipped(entry: string, rest: string, name: string)
    requires ';' !in entry && !IsNote(entry, name)
    ensures Lookup(entry + ";" + rest, name) == Lookup(rest, name)
  {
    SplitPrefix(entry, rest, ';');
  }

  /** None of the `;`-separated entries of `text` is a note. */
  predicate NoNote(text: string, name: string) {
    forall e :: e in Split(text, ';') ==> !IsNote(e, name)
  }

  /** Entries that are not notes, listed before others, do not change which note is found. */
  lemma {:induction false} FirstNoteSkips(xs: seq<string>, ys: seq<string>, name: string)
    requires forall e :: e in xs ==> !IsNote(e, name)
    ensures FirstNote(xs + ys, name) == FirstNote(ys, name)
  {
    if xs == [] {
      assert xs + ys == ys;
    } else {
      assert (xs + ys)[0] == xs[0] && (xs + ys)[1..] == xs[1..] + ys;
      assert xs[0] in xs;
      FirstNoteSkips(xs[1..], ys, name);
    }
  }

  /** Text without a note, then `;`, reads as what follows. */
  lemma NotesBeforeSkipped(a: string, b: string, name: string)
    requires NoNote(a, name)
    ensures Lookup(a + ";" + b, name) == Lookup(b, name)
  {
    assert a + ";" + b == a + [';'] + b;
    SplitConcat(a, b, ';');
    FirstNoteSkips(Split(a, ';'), Split(b, ';'), name);
  }

  /** A space in front of the cookie string is dropped with the first entry's leading spaces. */
  lemma LeadingSpaceSkipped(s: string, name: string)
    ensures Lookup(" " + s, name) == Lookup(s, name)
  {
    var t := " " + s;
    assert t[0] == ' ' && t[1..] == s;
    var rest := Split(s, ';');
    var first := " " + rest[0];
    assert Split(t, ';') == [first] + rest[1..];
    assert first[0] == ' ' && first[1..] == rest[0];
    assert TrimLeadingSpaces(first) == TrimLeadingSpaces(rest[0]);
    assert rest == [rest[0]] + rest[1..];
  }
}
