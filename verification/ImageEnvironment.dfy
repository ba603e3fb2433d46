/** The image environment on its way from the OCI metadata to the guest (oci.rs and
    session.rs): host check, NUL encoding, guest check and decoding.

    Environments are byte strings. In this module and in ChildEnvironment a character
    stands for one byte; only the part about JSON speaks of text. */
module ImageEnvironment {
  import opened Outcomes
  import opened Sequences

  const MAX_ITEMS: nat := 512
  const MAX_BYTES: nat := 1024 * 1024
  const MAX_FILE_BYTES: nat := MAX_BYTES + MAX_ITEMS
  const MAX_JSON_BYTES: nat := 8 * 1024 * 1024

  const NUL := '\0'
  const EQUALS := '='

  /** One Config.Env entry, in UTF-8. */
  type Entry = string

  type Environment = map<string, string>

  predicate LegalEntry(e: Entry) {
    EQUALS in e && e[0] != EQUALS && NUL !in e
  }

  function Size(es: seq<Entry>): nat {
    if es == [] then 0 else Size(es[..|es| - 1]) + |es[|es| - 1]| + 1
  }

  /** The environments execve(2) and the two limits allow. */
  predicate Legal(es: seq<Entry>) {
    |es| <= MAX_ITEMS && Size(es) <= MAX_BYTES && forall i :: 0 <= i < |es| ==> LegalEntry(es[i])
  }

  /** str::split_once at '='. */
  function SplitOnce(e: Entry): (r: Option<(string, string)>)
    ensures r.None? <==> EQUALS !in e
    ensures r.Some? ==> e == r.value.0 + [EQUALS] + r.value.1 && EQUALS !in r.value.0
  {
    if e == [] then
      None
    else if e[0] == EQUALS then
      Some(([], e[1..]))
    else
      match SplitOnce(e[1..])
      case None => None
      case Some(parts) => Some(([e[0]] + parts.0, parts.1))
  }

  function NameOf(e: Entry): string
    requires EQUALS in e
  {
    SplitOnce(e).value.0
  }

  function ValueOf(e: Entry): string
    requires EQUALS in e
  {
    SplitOnce(e).value.1
  }

  lemma LegalByParts(e: Entry)
    ensures LegalEntry(e) <==> EQUALS in e && NameOf(e) != [] && NUL !in NameOf(e) && NUL !in ValueOf(e)
  {
    if EQUALS in e {
      assert e == NameOf(e) + [EQUALS] + ValueOf(e);
      assert NUL in e <==> NUL in NameOf(e) || NUL in ValueOf(e);
      assert NameOf(e) != [] ==> e[0] == NameOf(e)[0];
    }
  }

  lemma {:induction false} SizeGrows(es: seq<Entry>, k: nat)
    requires k <= |es|
    ensures Size(es[..k]) <= Size(es)
  {
    if k == |es| {
      assert es[..k] == es;
    } else {
      SizeGrows(es[..|es| - 1], k);
      assert es[..|es| - 1][..k] == es[..k];
    }
  }

  lemma SizeOneMore(es: seq<Entry>, k: nat)
    requires k < |es|
    ensures Size(es[..k + 1]) == Size(es[..k]) + |es[k]| + 1 <= Size(es)
  {
    assert es[..k + 1][..k] == es[..k];
    SizeGrows(es, k + 1);
  }

  /** oci.rs `validate_image_environment`: the host accepts exactly the legal lists. */
  method HostAccepts(es: seq<Entry>) returns (ok: bool)
    ensures ok <==> Legal(es)
  {
    if |es| > MAX_ITEMS {
      return false;
    }
    var total := 0;
    for k := 0 to |es|
      invariant total == Size(es[..k]) <= MAX_BYTES
      invariant forall i :: 0 <= i < k ==> LegalEntry(es[i])
    {
      SizeOneMore(es, k);
      LegalByParts(es[k]);
      total := total + |es[k]| + 1;
      if total > MAX_BYTES {
        return false;
      }
      var parts := SplitOnce(es[k]);
      if parts.None? || parts.value.0 == [] || NUL in parts.value.0 || NUL in parts.value.1 {
        return false;
      }
    }
    assert es[..|es|] == es;
    return true;
  }

  /** Later entries replace earlier ones. */
  function LastWins(es: seq<Entry>): Environment
    requires forall i :: 0 <= i < |es| ==> EQUALS in es[i]
  {
    if es == [] then
      map[]
    else
      var n := |es| - 1;
      LastWins(es[..n])[NameOf(es[n]) := ValueOf(es[n])]
  }

  /** The last entry of a name decides its value. */
  lemma {:induction false} LastWinsValue(es: seq<Entry>, i: nat)
    requires forall j :: 0 <= j < |es| ==> EQUALS in es[j]
    requires i < |es| && forall j :: i < j < |es| ==> NameOf(es[j]) != NameOf(es[i])
    ensures NameOf(es[i]) in LastWins(es) && LastWins(es)[NameOf(es[i])] == ValueOf(es[i])
  {
    var n := |es| - 1;
    if i < n {
      LastWinsValue(es[..n], i);
    }
  }

  /** No name appears that no entry has. */
  lemma {:induction false} LastWinsNames(es: seq<Entry>, name: string) returns (i: nat)
    requires forall j :: 0 <= j < |es| ==> EQUALS in es[j]
    requires name in LastWins(es)
    ensures i < |es| && NameOf(es[i]) == name && forall j :: i < j < |es| ==> NameOf(es[j]) != name
  {
    var n := |es| - 1;
    if NameOf(es[n]) == name {
      i := n;
    } else {
      i := LastWinsNames(es[..n], name);
    }
  }

  lemma LastWinsOneMore(es: seq<Entry>, k: nat)
    requires k < |es| && forall i :: 0 <= i <= k ==> EQUALS in es[i]
    ensures LastWins(es[..k + 1]) == LastWins(es[..k])[NameOf(es[k]) := ValueOf(es[k])]
  {
    assert es[..k + 1][..k] == es[..k];
  }

  /** session.rs `parse_image_environment`: the guest accepts exactly the legal lists. */
  method Parse(es: seq<Entry>) returns (env: Option<Environment>)
    ensures env.Some? <==> Legal(es)
    ensures env.Some? ==> env.value == LastWins(es)
  {
    if |es| > MAX_ITEMS {
      return None;
    }
    var total, found := 0, map[];
    for k := 0 to |es|
      invariant total == Size(es[..k]) <= MAX_BYTES
      invariant forall i :: 0 <= i < k ==> LegalEntry(es[i])
      invariant found == LastWins(es[..k])
    {
      SizeOneMore(es, k);
      LegalByParts(es[k]);
      total := total + |es[k]| + 1;
      if total > MAX_BYTES {
        return None;
      }
      var parts := SplitOnce(es[k]);
      if parts.None? {
        return None;
      }
      if parts.value.0 == [] || EQUALS in parts.value.0 || NUL in parts.value.0 || NUL in parts.value.1 {
        return None;
      }
      LastWinsOneMore(es, k);
      found := found[parts.value.0 := parts.value.1];
    }
    assert es[..|es|] == es;
    return Some(found);
  }

  function Encoded(es: seq<Entry>): string {
    if es == [] then [] else Encoded(es[..|es| - 1]) + es[|es| - 1] + [NUL]
  }

  lemma {:induction false} EncodedSize(es: seq<Entry>)
    ensures |Encoded(es)| == Size(es)
  {
    if es != [] {
      EncodedSize(es[..|es| - 1]);
    }
  }

  lemma {:induction false} JoinOneMore(es: seq<Entry>, last: Entry)
    requires es != []
    ensures Join(es + [last], NUL) == Join(es, NUL) + [NUL] + last
  {
    var all := es + [last];
    if |es| == 1 {
      assert all[1..] == [last];
    } else {
      JoinOneMore(es[1..], last);
      assert all[1..] == es[1..] + [last];
      assert es[0] + [NUL] + (Join(es[1..], NUL) + [NUL] + last) == es[0] + [NUL] + Join(es[1..], NUL) + [NUL] + last;
    }
  }

  /** The file is the entries joined by NUL, with one more NUL at the end. */
  lemma {:induction false} EncodedIsJoin(es: seq<Entry>)
    requires es != []
    ensures Encoded(es) == Join(es, NUL) + [NUL]
  {
    var n := |es| - 1;
    if n == 0 {
      assert Encoded(es[..0]) == [] && es == [es[0]];
      assert Encoded(es) == [] + es[0] + [NUL];
    } else {
      EncodedIsJoin(es[..n]);
      JoinOneMore(es[..n], es[n]);
      assert es[..n] + [es[n]] == es;
    }
  }

  /** session.rs `encode_image_environment`. */
  method Encode(es: seq<Entry>) returns (o: Option<string>)
    ensures o.Some? <==> Legal(es)
    ensures o.Some? ==> o.value == Encoded(es)
  {
    var parsed := Parse(es);
    if parsed.None? {
      return None;
    }
    var encoded: string := [];
    for k := 0 to |es|
      invariant encoded == Encoded(es[..k])
    {
      assert es[..k + 1][..k] == es[..k];
      encoded := encoded + es[k] + [NUL];
    }
    assert es[..|es|] == es;
    return Some(encoded);
  }

  function AllUtf8(es: seq<Entry>, utf8: string -> bool): bool {
    forall i :: 0 <= i < |es| ==> utf8(es[i])
  }

  /** The entries a stored file holds, before they are parsed. */
  function StoredEntries(contents: string): Option<seq<Entry>> {
    if contents == [] then
      Some([])
    else if contents[|contents| - 1] != NUL then
      None
    else
      Some(Split(contents[..|contents| - 1], NUL))
  }

  lemma StoredEncoded(es: seq<Entry>)
    requires forall i :: 0 <= i < |es| ==> NUL !in es[i]
    ensures StoredEntries(Encoded(es)) == Some(es)
  {
    if es != [] {
      EncodedIsJoin(es);
      SplitJoin(es, NUL);
      var contents := Encoded(es);
      assert contents[..|contents| - 1] == Join(es, NUL);
    }
  }

  /** session.rs `image_environment` and `decode_image_environment`: the size check of the
      file, then the split at NUL, UTF-8 and the guest's own check. */
  method Decode(contents: string, utf8: string -> bool) returns (env: Option<Environment>)
    ensures env.Some? <==>
      && |contents| <= MAX_FILE_BYTES
      && StoredEntries(contents).Some?
      && AllUtf8(StoredEntries(contents).value, utf8)
      && Legal(StoredEntries(contents).value)
    ensures env.Some? ==> env.value == LastWins(StoredEntries(contents).value)
  {
    if |contents| > MAX_FILE_BYTES {
      return None;
    }
    if contents == [] {
      env := Parse([]);
      return;
    }
    if contents[|contents| - 1] != NUL {
      return None;
    }
    var es := Split(contents[..|contents| - 1], NUL);
    for k := 0 to |es|
      invariant forall i :: 0 <= i < k ==> utf8(es[i])
    {
      if !utf8(es[k]) {
        return None;
      }
    }
    env := Parse(es);
  }

  /** The whole way. A list of strings arrives exactly when it is legal, as the host and
      the guest decide alike; the file then fits its limit and every name has the value
      of its last entry. */
  method Transport(es: seq<Entry>, utf8: string -> bool) returns (env: Option<Environment>)
    requires AllUtf8(es, utf8)
    ensures env.Some? <==> Legal(es)
    ensures env.Some? ==> env.value == LastWins(es)
  {
    var accepted := HostAccepts(es);
    if !accepted {
      return None;
    }
    var file := Encode(es);
    EncodedSize(es);
    StoredEncoded(es);
    env := Decode(file.value, utf8);
  }

  // The JSON on the way

  /** char::len_utf8 of a character of a text. */
  function Utf8Length(c: char): (n: nat)
    ensures 1 <= n <= 4
  {
    if c < '\U{80}' then 1 else if c < '\U{800}' then 2 else if c < '\U{10000}' then 3 else 4
  }

  function Utf8Size(text: string): (n: nat)
    ensures n >= |text|
  {
    if text == "" then 0 else Utf8Size(text[..|text| - 1]) + Utf8Length(text[|text| - 1])
  }

  lemma {:induction false} Utf8SizeConcat(a: string, b: string)
    ensures Utf8Size(a + b) == Utf8Size(a) + Utf8Size(b)
  {
    if b == "" {
      assert a + b == a;
    } else {
      Utf8SizeConcat(a, b[..|b| - 1]);
      assert (a + b)[..|a + b| - 1] == a + b[..|b| - 1];
    }
  }

  /** The forms section 7 of RFC 8259 allows for a character of a string: itself, a
      two-character escape, or \u escapes. */
  datatype Form = Plain | Short | Long

  /** What has to be escaped. */
  predicate Special(c: char) {
    c == '"' || c == '\\' || c < ' '
  }

  function HexDigit(n: nat): (c: char)
    requires n < 16
    ensures c < '\U{80}'
  {
    "0123456789abcdef"[n]
  }

  /** One \uXXXX escape. */
  function Unit(n: nat): (s: string)
    requires n < 0x1_0000
    ensures |s| == 6 && Utf8Size(s) == 6
  {
    var s := "\\u" +
      [HexDigit(n / 0x1000), HexDigit(n / 0x100 % 0x10), HexDigit(n / 0x10 % 0x10), HexDigit(n % 0x10)];
    AsciiSize(s);
    s
  }

  lemma {:induction false} AsciiSize(s: string)
    requires forall i :: 0 <= i < |s| ==> s[i] < '\U{80}'
    ensures Utf8Size(s) == |s|
  {
    if s != "" {
      AsciiSize(s[..|s| - 1]);
    }
  }

  /** One character of a string in JSON, in the form the encoder chose for it; beyond the
      basic plane the long form is a surrogate pair. Special characters have no plain form. */
  function EscapeChar(c: char, form: char -> Form): string {
    if form(c) == Short then
      ['\\', if c == '\n' then 'n' else if c == '\r' then 'r' else if c == '\t' then 't' else c]
    else if form(c) == Plain && !Special(c) then
      [c]
    else if c < '\U{10000}' then
      Unit(c as int)
    else
      Unit(0xd800 + (c as int - 0x1_0000) / 0x400) + Unit(0xdc00 + (c as int - 0x1_0000) % 0x400)
  }

  function Escape(text: string, form: char -> Form): string {
    if text == "" then "" else Escape(text[..|text| - 1], form) + EscapeChar(text[|text| - 1], form)
  }

  lemma EscapeCharBound(c: char, form: char -> Form)
    requires form(c) == Short ==> c < '\U{80}'
    ensures Utf8Size(EscapeChar(c, form)) <= 6 * Utf8Length(c)
  {
    var e := EscapeChar(c, form);
    if form(c) == Short {
      AsciiSize(e);
    } else if form(c) == Plain && !Special(c) {
      assert e[..0] == "";
    } else if c >= '\U{10000}' {
      Utf8SizeConcat(Unit(0xd800 + (c as int - 0x1_0000) / 0x400), Unit(0xdc00 + (c as int - 0x1_0000) % 0x400));
    }
  }

  /** Two-character escapes exist for some ASCII characters only. */
  ghost predicate Encoder(form: char -> Form) {
    forall c :: form(c) == Short ==> c < '\U{80}'
  }

  /** No byte of a text takes more than the six bytes of a \u escape. */
  lemma {:induction false} EscapeBound(text: string, form: char -> Form)
    requires Encoder(form)
    ensures Utf8Size(Escape(text, form)) <= 6 * Utf8Size(text)
  {
    if text != "" {
      var front, last := text[..|text| - 1], text[|text| - 1];
      EscapeBound(front, form);
      EscapeCharBound(last, form);
      Utf8SizeConcat(Escape(front, form), EscapeChar(last, form));
    }
  }

  /** `Size` of the texts once they are UTF-8, which is what the limits count. */
  function TextSize(texts: seq<string>): nat {
    if texts == [] then 0 else TextSize(texts[..|texts| - 1]) + Utf8Size(texts[|texts| - 1]) + 1
  }

  /** One item of a JSON array of strings; `gap` is the whitespace before it. */
  function JsonItem(first: bool, text: string, form: char -> Form, gap: string): string {
    (if first then "" else ",") + gap + "\"" + (Escape(text, form) + "\"")
  }

  function JsonItems(texts: seq<string>, form: char -> Form, gap: string): string {
    if texts == [] then
      ""
    else
      var n := |texts| - 1;
      JsonItems(texts[..n], form, gap) + JsonItem(n == 0, texts[n], form, gap)
  }

  function JsonArray(texts: seq<string>, form: char -> Form, gap: string): string {
    "[" + JsonItems(texts, form, gap) + "]"
  }

  lemma JsonItemSize(first: bool, text: string, form: char -> Form, gap: string)
    requires Encoder(form)
    ensures Utf8Size(JsonItem(first, text, form, gap)) <= 6 * Utf8Size(text) + Utf8Size(gap) + 3
  {
    var comma := if first then "" else ",";
    var quoted := Escape(text, form) + "\"";
    AsciiSize(comma);
    AsciiSize("\"");
    EscapeBound(text, form);
    Utf8SizeConcat(comma, gap);
    Utf8SizeConcat(comma + gap, "\"");
    Utf8SizeConcat(Escape(text, form), "\"");
    Utf8SizeConcat(comma + gap + "\"", quoted);
  }

  /** `text` encodes to at most `bound` bytes. */
  predicate AtMost(text: string, bound: int) {
    Utf8Size(text) <= bound
  }

  lemma JsonGrows(
    front: string, first: bool, text: string, form: char -> Form, gap: string, before: nat, g: nat, n: nat)
    requires Encoder(form) && Utf8Size(gap) == g && AtMost(front, 6 * before + g * n)
    ensures AtMost(front + JsonItem(first, text, form, gap), 6 * (before + Utf8Size(text) + 1) + g * (n + 1))
  {
    JsonItemSize(first, text, form, gap);
    Utf8SizeConcat(front, JsonItem(first, text, form, gap));
    assert g * (n + 1) == g * n + g;
  }

  lemma {:induction false} JsonItemsBound(texts: seq<string>, form: char -> Form, gap: string, g: nat)
    requires Encoder(form) && Utf8Size(gap) == g
    ensures AtMost(JsonItems(texts, form, gap), 6 * TextSize(texts) + g * |texts|)
  {
    if texts == [] {
      AsciiSize("");
    } else {
      var n := |texts| - 1;
      var front, before := JsonItems(texts[..n], form, gap), TextSize(texts[..n]);
      JsonItemsBound(texts[..n], form, gap, g);
      JsonGrows(front, n == 0, texts[n], form, gap, before, g, n);
      assert TextSize(texts) == before + Utf8Size(texts[n]) + 1;
      assert JsonItems(texts, form, gap) == front + JsonItem(n == 0, texts[n], form, gap);
    }
  }

  lemma JsonArraySize(texts: seq<string>, form: char -> Form, gap: string, g: nat)
    requires Encoder(form) && Utf8Size(gap) == g
    ensures Utf8Size(JsonArray(texts, form, gap)) <= 6 * TextSize(texts) + g * |texts| + 2
  {
    var items := JsonItems(texts, form, gap);
    JsonItemsBound(texts, form, gap, g);
    AsciiSize("[");
    AsciiSize("]");
    Utf8SizeConcat("[", items);
    Utf8SizeConcat("[" + items, "]");
  }

  predicate WithinLimits(texts: seq<string>) {
    |texts| <= MAX_ITEMS && TextSize(texts) <= MAX_BYTES
  }

  /** Whatever escapes the encoder chooses, the size check on the JSON never refuses an
      environment within the limits, and leaves room for the line feed that ends the
      output. */
  lemma JsonFits(texts: seq<string>, form: char -> Form)
    requires WithinLimits(texts) && Encoder(form)
    ensures Utf8Size(JsonArray(texts, form, "")) < MAX_JSON_BYTES
  {
    AsciiSize("");
    JsonArraySize(texts, form, "", 0);
    JsonLimit(TextSize(texts), 0, |texts|);
  }

  lemma JsonLimit(size: nat, g: nat, n: nat)
    requires size <= MAX_BYTES && g <= 64 && n <= MAX_ITEMS
    ensures 6 * size + g * n + 2 <= MAX_JSON_BYTES - 2015 * 1024
    ensures 6 * size + g * n + 2 < MAX_JSON_BYTES
  {
    assert g * n <= 64 * n;
  }

  /** The same for the pretty-printed cache metadata, whose items are set on lines of
      their own behind up to 63 spaces, as long as the other fields, which Spawnr does not
      limit, take at most 2015 KiB. */
  lemma MetadataFits(texts: seq<string>, form: char -> Form, gap: string, others: nat)
    requires WithinLimits(texts) && Encoder(form)
    requires Utf8Size(gap) <= 64 && others <= 2015 * 1024
    ensures Utf8Size(JsonArray(texts, form, gap)) + others <= MAX_JSON_BYTES
  {
    JsonArraySize(texts, form, gap, Utf8Size(gap));
    JsonLimit(TextSize(texts), Utf8Size(gap), |texts|);
  }
}
