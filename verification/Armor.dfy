/** The outer ASCII armor (crates/grin-ext/src/slatepack.rs). A character stands for one byte of the
    text; every literal the armor uses is ASCII. */
module Armors {
  import opened Outcomes
  import opened ByteStrings

  const WORD_LENGTH := 15
  const WORDS_PER_LINE := 200
  const HEADER := "BEGINSLATEPACK."
  const FOOTER := ". ENDSLATEPACK."

  type Bytes4 = b: Bytes | |b| == 4 witness [0, 0, 0, 0]

  /** The libraries the armor calls: the doubled SHA-256 cut to 4 bytes, and base58. */
  datatype ArmorLib = ArmorLib(checksum: Bytes -> Bytes4, encode: Bytes -> string, decode: string -> Outcome<Bytes>) {
    /** Base58 decodes what it encodes, and its alphabet has no full stop and nothing that is stripped. */
    ghost predicate Valid() {
      forall b :: decode(encode(b)) == Ok(b) && Solid(encode(b))
    }
  }

  /** `WHITESPACE`: line breaks, blanks, and the mark messengers put before quoted lines. */
  predicate IsStripped(c: char) {
    c == '>' || c == '\n' || c == '\r' || c == '\t' || c == ' '
  }

  ghost predicate Solid(s: string) {
    forall c | c in s :: c != '.' && !IsStripped(c)
  }

  function Kept(c: char): string {
    if IsStripped(c) then [] else [c]
  }

  function StripWhitespace(s: string): (r: string)
    ensures forall c | c in r :: !IsStripped(c)
  {
    if s == [] then [] else Kept(s[0]) + StripWhitespace(s[1..])
  }

  /** What comes before the first full stop, and what comes after it. */
  function SplitAtStop(s: string, error: string): Outcome<(string, string)> {
    if s == [] then Err(error)
    else if s[0] == '.' then Ok(([], s[1..]))
    else
      var (before, after) :- SplitAtStop(s[1..], error);
      Ok(([s[0]] + before, after))
  }

  function Dearmor(lib: ArmorLib, text: string): Outcome<Bytes> {
    var (head, text) :- SplitAtStop(text, "no header terminator '.' found");
    var header := StripWhitespace(head);
    var _ :- Need(header == "BEGINSLATEPACK", "bad armor header: " + header);
    var (body, text) :- SplitAtStop(text, "no payload terminator '.' found");
    var payloadRaw := StripWhitespace(body);
    var (foot, _) :- SplitAtStop(text, "no footer terminator '.' found");
    var footer := StripWhitespace(foot);
    var _ :- Need(footer == "ENDSLATEPACK", "bad armor footer: " + footer);
    var decoded :- lib.decode(payloadRaw);
    var _ :- Need(|decoded| >= 4, "decoded payload too short");
    var _ :- Need(decoded[..4] == lib.checksum(decoded[4..]), "checksum mismatch");
    Ok(decoded[4..])
  }

  /** What the wrap puts before character `i`. */
  function Separator(i: nat): string {
    if i != 0 && i % WORD_LENGTH == 0 then
      if i % (WORD_LENGTH * WORDS_PER_LINE) == 0 then "\n" else " "
    else ""
  }

  /** The first `n` characters of `s`, word-wrapped. */
  function WrapUpTo(s: string, n: nat): string
    requires n <= |s|
  {
    if n == 0 then "" else WrapUpTo(s, n - 1) + Separator(n - 1) + [s[n - 1]]
  }

  method WordWrap(input: string) returns (out: string)
    ensures out == WrapUpTo(input, |input|)
  {
    out := "";
    for i := 0 to |input|
      invariant out == WrapUpTo(input, i)
    {
      if i != 0 && i % WORD_LENGTH == 0 {
        if i % (WORD_LENGTH * WORDS_PER_LINE) == 0 {
          out := out + "\n";
        } else {
          out := out + " ";
        }
      }
      out := out + [input[i]];
    }
  }

  /** The armored text, on one unwrapped line. */
  function Flat(lib: ArmorLib, payload: Bytes): string {
    HEADER + lib.encode(lib.checksum(payload) + payload)
  }

  function ArmorText(lib: ArmorLib, payload: Bytes): string {
    var body := Flat(lib, payload);
    WrapUpTo(body, |body|) + FOOTER + "\n"
  }

  method Armor(lib: ArmorLib, payload: Bytes) returns (text: string)
    ensures text == ArmorText(lib, payload)
  {
    var check := lib.checksum(payload);
    var buf: Bytes := [];
    buf := buf + check;
    buf := buf + payload;
    var encoded := lib.encode(buf);
    assert buf == lib.checksum(payload) + payload;
    var formatted := WordWrap(HEADER + encoded);
    return formatted + FOOTER + "\n";
  }

  // ----- stripping ---------------------------------------------------------------------------

  lemma Associate(a: string, b: string, c: string)
    ensures (a + b) + c == a + (b + c)
  {
  }

  lemma {:induction false} StripAppend(a: string, b: string)
    ensures StripWhitespace(a + b) == StripWhitespace(a) + StripWhitespace(b)
  {
    if a == [] {
      assert a + b == b;
    } else {
      StripAppend(a[1..], b);
      assert (a + b)[0] == a[0] && (a + b)[1..] == a[1..] + b;
      Associate(Kept(a[0]), StripWhitespace(a[1..]), StripWhitespace(b));
    }
  }

  lemma {:induction false} StripSolid(s: string)
    requires forall c | c in s :: !IsStripped(c)
    ensures StripWhitespace(s) == s
  {
    if s != [] {
      StripSolid(s[1..]);
    }
  }

  /** Stripping first does not move a full stop. */
  lemma {:induction false} SplitStripped(s: string, error: string)
    ensures SplitAtStop(StripWhitespace(s), error) == (
      var (before, after) :- SplitAtStop(s, error);
      Ok((StripWhitespace(before), StripWhitespace(after))))
  {
    if s != [] && s[0] != '.' {
      SplitStripped(s[1..], error);
      if IsStripped(s[0]) {
        assert StripWhitespace(s) == StripWhitespace(s[1..]);
        if SplitAtStop(s[1..], error).Ok? {
          var (before, _) := SplitAtStop(s[1..], error).value;
          assert StripWhitespace([s[0]] + before) == StripWhitespace(before) by { StripAppend([s[0]], before); }
        }
      } else {
        var t := StripWhitespace(s);
        assert t[0] == s[0] && t[1..] == StripWhitespace(s[1..]);
        if SplitAtStop(s[1..], error).Ok? {
          var (before, _) := SplitAtStop(s[1..], error).value;
          assert StripWhitespace([s[0]] + before) == [s[0]] + StripWhitespace(before) by {
            StripAppend([s[0]], before);
          }
        }
      }
    } else if s != [] {
      assert StripWhitespace(s)[1..] == StripWhitespace(s[1..]);
    }
  }

  lemma {:induction false} SplitSolid(before: string, after: string, error: string)
    requires '.' !in before
    ensures SplitAtStop(before + "." + after, error) == Ok((before, after))
  {
    var s := before + "." + after;
    if before == [] {
      assert s[1..] == after;
    } else {
      SplitSolid(before[1..], after, error);
      assert s[1..] == before[1..] + "." + after;
      assert [before[0]] + before[1..] == before;
    }
  }

  /** Dearmoring looks at nothing but the stripped text. */
  lemma DearmorOfStripped(lib: ArmorLib, text: string)
    ensures Dearmor(lib, text) == Dearmor(lib, StripWhitespace(text))
  {
    hide StripWhitespace, SplitAtStop;
    var e1, e2, e3 := "no header terminator '.' found", "no payload terminator '.' found",
      "no footer terminator '.' found";
    SplitStripped(text, e1);
    if SplitAtStop(text, e1).Ok? {
      var (head, t1) := SplitAtStop(text, e1).value;
      StripSolid(StripWhitespace(head));
      SplitStripped(t1, e2);
      if SplitAtStop(t1, e2).Ok? {
        var (body, t2) := SplitAtStop(t1, e2).value;
        StripSolid(StripWhitespace(body));
        SplitStripped(t2, e3);
        if SplitAtStop(t2, e3).Ok? {
          var (foot, _) := SplitAtStop(t2, e3).value;
          StripSolid(StripWhitespace(foot));
        }
      }
    }
  }

  /** Two texts that differ only by line breaks, blanks and quote marks, anywhere, dearmor alike: to
      the same bytes or to the same error. */
  lemma FormattingIgnored(lib: ArmorLib, a: string, b: string)
    requires StripWhitespace(a) == StripWhitespace(b)
    ensures Dearmor(lib, a) == Dearmor(lib, b)
  {
    DearmorOfStripped(lib, a);
    DearmorOfStripped(lib, b);
  }

  // ----- the wrap ----------------------------------------------------------------------------

  lemma SeparatorStrips(i: nat)
    ensures StripWhitespace(Separator(i)) == ""
  {
  }

  lemma {:induction false} WrapStrips(s: string, n: nat)
    requires n <= |s|
    ensures StripWhitespace(WrapUpTo(s, n)) == StripWhitespace(s[..n])
  {
    hide StripWhitespace, Separator;
    if n == 0 {
      assert s[..n] == "";
    } else {
      WrapStrips(s, n - 1);
      var wrapped, last := WrapUpTo(s, n - 1), [s[n - 1]];
      StripAppend(wrapped + Separator(n - 1), last);
      StripAppend(wrapped, Separator(n - 1));
      SeparatorStrips(n - 1);
      StripAppend(s[..n - 1], last);
      assert s[..n] == s[..n - 1] + last;
      assert StripWhitespace(wrapped) + "" == StripWhitespace(wrapped);
    }
  }

  /** Where everything lands: every sixteenth character of the wrapped text is a separator, a line break
      after each 200 words, and the characters between are the input's in order. */
  lemma {:induction false} WrapLayout(s: string, n: nat)
    requires 0 < n <= |s|
    ensures var out := WrapUpTo(s, n);
      && |out| == n + (n - 1) / 15
      && (forall j | 0 <= j < |out| ::
            if j % 16 == 15 then out[j] == (if (j / 16 + 1) % 200 == 0 then '\n' else ' ')
            else j - j / 16 < n && out[j] == s[j - j / 16])
  {
    if n > 1 {
      WrapLayout(s, n - 1);
      var i := n - 1;
      var prev := WrapUpTo(s, i);
      assert |prev| == i + (i - 1) / 15;
      var word, col := i / 15, i % 15;
      if col == 0 {
        assert |prev| == 16 * (word - 1) + 15;
        assert i % 3000 == 0 <==> word % 200 == 0;
      } else {
        assert |prev| == 16 * word + col;
      }
    }
  }

  /** The armor with everything that can be stripped left out. */
  function CleanText(lib: ArmorLib, payload: Bytes): string {
    "BEGINSLATEPACK" + "." + (lib.encode(lib.checksum(payload) + payload) + "." + "ENDSLATEPACK.")
  }

  lemma StripOne(c: char)
    requires IsStripped(c)
    ensures StripWhitespace([c]) == ""
  {
  }

  /** A blank after a full stop goes. */
  lemma StripAfterStop(word: string)
    requires forall c | c in word :: !IsStripped(c)
    ensures StripWhitespace(". " + word) == "." + word
  {
    hide StripWhitespace;
    StripAppend(". ", word);
    StripAppend(".", " ");
    StripSolid(".");
    StripOne(' ');
    StripSolid(word);
    assert "." + " " == ". " && "." + "" == ".";
  }

  lemma ArmorStripped(lib: ArmorLib, payload: Bytes)
    requires lib.Valid()
    ensures StripWhitespace(ArmorText(lib, payload)) == CleanText(lib, payload)
  {
    hide StripWhitespace, WrapUpTo;
    var encoded := lib.encode(lib.checksum(payload) + payload);
    assert lib.decode(encoded) == Ok(lib.checksum(payload) + payload);
    var body := HEADER + encoded;
    var wrapped := WrapUpTo(body, |body|);
    assert body[..|body|] == body;
    WrapStrips(body, |body|);
    StripSolid(body);
    assert FOOTER == ". " + "ENDSLATEPACK.";
    StripAfterStop("ENDSLATEPACK.");
    StripOne('\n');
    StripAppend(wrapped, FOOTER);
    StripAppend(wrapped + FOOTER, "\n");
    assert StripWhitespace(wrapped + FOOTER + "\n") == body + ("." + "ENDSLATEPACK.") + "";
    assert HEADER == "BEGINSLATEPACK" + ".";
  }

  /** Armor, reformat freely, dearmor: the payload comes back. */
  lemma ArmorRoundTrips(lib: ArmorLib, payload: Bytes, text: string)
    requires lib.Valid()
    requires StripWhitespace(text) == StripWhitespace(ArmorText(lib, payload))
    ensures Dearmor(lib, text) == Ok(payload)
  {
    hide Dearmor, StripWhitespace, ArmorText, CleanText;
    ArmorStripped(lib, payload);
    DearmorOfStripped(lib, text);
    CleanDearmors(lib, payload);
  }

  lemma CleanDearmors(lib: ArmorLib, payload: Bytes)
    requires lib.Valid()
    ensures Dearmor(lib, CleanText(lib, payload)) == Ok(payload)
  {
    hide Dearmor;
    var buf := lib.checksum(payload) + payload;
    var body := lib.encode(buf);
    assert lib.decode(body) == Ok(buf);
    assert "BEGINSLATEPACK" + "." == "BEGINSLATEPACK." && "ENDSLATEPACK." + "" == "ENDSLATEPACK.";
    FramedAccepted(lib, CleanText(lib, payload), body, "", payload);
  }

  // ----- what is ignored, what is refused ----------------------------------------------------

  /** A quote mark, a blank, a tab or a line break put anywhere into a text changes nothing. */
  lemma InsertedIgnored(lib: ArmorLib, a: string, c: char, b: string)
    requires c in "> \t\r\n"
    ensures Dearmor(lib, a + [c] + b) == Dearmor(lib, a + b)
  {
    hide Dearmor, StripWhitespace;
    StripOne(c);
    StripAppend(a + [c], b);
    StripAppend(a, [c]);
    StripAppend(a, b);
    assert StripWhitespace(a) + "" == StripWhitespace(a);
    FormattingIgnored(lib, a + [c] + b, a + b);
  }

  /** Any other character counts. */
  lemma OthersKept(a: string, c: char, b: string)
    requires c !in "> \t\r\n"
    ensures StripWhitespace(a + [c] + b) == StripWhitespace(a) + [c] + StripWhitespace(b)
  {
    hide StripWhitespace;
    assert !IsStripped(c) by { NotStripped(c); }
    StripSolid([c]);
    StripAppend(a + [c], b);
    StripAppend(a, [c]);
  }

  lemma NotStripped(c: char)
    requires c !in "> \t\r\n"
    ensures !IsStripped(c)
  {
    var five := "> \t\r\n";
    assert five[0] == '>' && five[1] == ' ' && five[2] == '\t' && five[3] == '\r' && five[4] == '\n';
  }

  lemma {:induction false} SplitParts(s: string, error: string)
    ensures SplitAtStop(s, error).Ok? ==>
      var (before, after) := SplitAtStop(s, error).value; '.' !in before && s == before + "." + after
  {
    if s != [] && s[0] != '.' {
      SplitParts(s[1..], error);
      if SplitAtStop(s, error).Ok? {
        var (before, after) := SplitAtStop(s[1..], error).value;
        assert s == [s[0]] + s[1..] && [s[0]] + (before + "." + after) == [s[0]] + before + "." + after;
      }
    } else if s != [] {
      assert s == "" + "." + s[1..];
    }
  }

  /** A text in one piece: header, body and footer each before its full stop. */
  ghost predicate Framed(stripped: string, body: string, rest: string) {
    stripped == "BEGINSLATEPACK." + (body + "." + ("ENDSLATEPACK." + rest)) && '.' !in body
  }

  /** When a text is accepted, and as what: stripped, it is the header, a body and the footer, whatever follows, and
      the body decodes to the payload behind the payload's own checksum. */
  lemma DearmorExact(lib: ArmorLib, text: string, payload: Bytes)
    ensures Dearmor(lib, text) == Ok(payload) <==> exists body, rest ::
      Framed(StripWhitespace(text), body, rest) && lib.decode(body) == Ok(lib.checksum(payload) + payload)
  {
    hide StripWhitespace, SplitAtStop, Dearmor, Framed;
    var t := StripWhitespace(text);
    DearmorOfStripped(lib, text);
    if Dearmor(lib, t) == Ok(payload) {
      var body, rest := AcceptedFramed(lib, t, payload);
    }
    if body, rest :| Framed(t, body, rest) && lib.decode(body) == Ok(lib.checksum(payload) + payload) {
      FramedAccepted(lib, t, body, rest, payload);
    }
  }

  lemma AcceptedFramed(lib: ArmorLib, t: string, payload: Bytes) returns (body: string, rest: string)
    requires (forall c | c in t :: !IsStripped(c)) && Dearmor(lib, t) == Ok(payload)
    ensures Framed(t, body, rest) && lib.decode(body) == Ok(lib.checksum(payload) + payload)
  {
    hide StripWhitespace, SplitAtStop, IsStripped;
    var e1, e2, e3 := "no header terminator '.' found", "no payload terminator '.' found",
      "no footer terminator '.' found";
    var (head, t1) := SplitAtStop(t, e1).value;
    SplitParts(t, e1);
    var (middle, t2) := SplitAtStop(t1, e2).value;
    SplitParts(t1, e2);
    var (foot, t3) := SplitAtStop(t2, e3).value;
    SplitParts(t2, e3);
    assert forall c | c in head || c in middle || c in foot :: c in t;
    StripSolid(head);
    StripSolid(middle);
    StripSolid(foot);
    body, rest := middle, t3;
    var decoded := lib.decode(body).value;
    assert decoded == decoded[..4] + decoded[4..];
    assert "BEGINSLATEPACK" + "." == "BEGINSLATEPACK." && "ENDSLATEPACK" + "." == "ENDSLATEPACK.";
    assert t2 == "ENDSLATEPACK." + rest && t1 == body + "." + t2;
  }

  lemma FramedAccepted(lib: ArmorLib, t: string, body: string, rest: string, payload: Bytes)
    requires (forall c | c in t :: !IsStripped(c)) && Framed(t, body, rest)
    requires lib.decode(body) == Ok(lib.checksum(payload) + payload)
    ensures Dearmor(lib, t) == Ok(payload)
  {
    hide StripWhitespace, SplitAtStop, IsStripped;
    var check := lib.checksum(payload);
    var buf := check + payload;
    assert buf[..4] == check && buf[4..] == payload;
    assert "BEGINSLATEPACK" + "." == "BEGINSLATEPACK." && "ENDSLATEPACK" + "." == "ENDSLATEPACK.";
    var t2 := "ENDSLATEPACK." + rest;
    var t1 := body + "." + t2;
    assert t == "BEGINSLATEPACK" + "." + t1 && t2 == "ENDSLATEPACK" + "." + rest;
    SplitSolid("BEGINSLATEPACK", t1, "no header terminator '.' found");
    SplitSolid(body, t2, "no payload terminator '.' found");
    SplitSolid("ENDSLATEPACK", rest, "no footer terminator '.' found");
    assert forall i | 0 <= i < |"BEGINSLATEPACK"| :: t[i] == "BEGINSLATEPACK"[i];
    assert forall i | 0 <= i < |"ENDSLATEPACK"| :: t2[i] == "ENDSLATEPACK"[i];
    assert forall c | c in t2 :: c in t;
    StripSolid("BEGINSLATEPACK");
    StripSolid(body);
    StripSolid("ENDSLATEPACK");
  }

  /** The armored text: the header and the encoding of checksum and payload, a blank after every 15 characters and a
      line break instead after every 3000, then the footer and a line break. */
  lemma ArmorLayout(lib: ArmorLib, payload: Bytes)
    ensures var flat := "BEGINSLATEPACK." + lib.encode(lib.checksum(payload) + payload);
      var text, n := ArmorText(lib, payload), |flat| + (|flat| - 1) / 15;
      && |text| == n + 16 && text[n..] == ". ENDSLATEPACK.\n"
      && forall j | 0 <= j < n ::
           if j % 16 == 15 then text[j] == (if j % 3200 == 3199 then '\n' else ' ')
           else j - j / 16 < |flat| && text[j] == flat[j - j / 16]
  {
    hide WrapUpTo;
    var flat := Flat(lib, payload);
    WrapLayout(flat, |flat|);
    var wrapped := WrapUpTo(flat, |flat|);
    var tail := FOOTER + "\n";
    assert tail == ". ENDSLATEPACK.\n";
    assert ArmorText(lib, payload) == wrapped + tail;
    forall j | 0 <= j < |wrapped| && j % 16 == 15
      ensures (j / 16 + 1) % 200 == 0 <==> j % 3200 == 3199
    {
      LastColumn(j);
    }
  }

  lemma LastColumn(j: nat)
    requires j % 16 == 15
    ensures (j / 16 + 1) % 200 == 0 <==> j % 3200 == 3199
  {
    var q := j / 16;
    assert j == 16 * q + 15;
  }
}
