/** http_write_response: a response head and body pushed into freshly allocated buffer space. */
module HttpWriter {
  import opened Bytes
  import opened Words
  import opened Decimal
  import opened Buffer

  datatype Field = Field(name: seq<Byte>, value: seq<Byte>)

  const CRLF: seq<Byte> := [CR, LF]
  const SEPARATOR: seq<Byte> := [COLON, SP]

  function FieldText(f: Field): seq<Byte> {
    f.name + SEPARATOR + f.value + CRLF
  }

  function FieldsText(fields: seq<Field>): seq<Byte> {
    if fields == [] then [] else FieldText(fields[0]) + FieldsText(fields[1..])
  }

  function VersionText(): (s: seq<Byte>)
    ensures |s| == 9
  {
    [72, 84, 84, 80, 47, 49, 46, 49, 32]
  }

  function ServerField(): Field {
    Field(Ascii("Server"), Ascii("reactor"))
  }

  /** The date is cut to 29 bytes, whatever its size. */
  function DateField(date: seq<Byte>): Field
    requires |date| >= 29
  {
    Field(Ascii("Date"), date[..29])
  }

  function TypeField(kind: seq<Byte>): Field {
    Field(Ascii("Content-Type"), kind)
  }

  /** The body size is passed as a 32-bit number. */
  function LengthField(body: seq<Byte>): Field {
    Field(Ascii("Content-Length"), Digits(|body| % U32_SIZE))
  }

  function ResponseFields(date: seq<Byte>, kind: seq<Byte>, body: seq<Byte>): seq<Field>
    requires |date| >= 29
  {
    [ServerField(), DateField(date)] + (if kind == [] then [] else [TypeField(kind)]) + [LengthField(body)]
  }

  function ResponseText(status: seq<Byte>, date: seq<Byte>, kind: seq<Byte>, body: seq<Byte>): seq<Byte>
    requires |date| >= 29
  {
    VersionText() + status + CRLF + FieldsText(ResponseFields(date, kind, body)) + CRLF + body
  }

  /** The space that the code allocates before it writes. */
  function AllocatedSize(status: seq<Byte>, kind: seq<Byte>, length: seq<Byte>, body: seq<Byte>): nat {
    9 + |status| + 2 + 17 + 37 + (if kind == [] then 0 else 16 + |kind|) + (18 + |length|) + 2 + |body|
  }

  /** Text from `start` up to the pointer p, and nothing before it touched. */
  ghost predicate Filled(base: array<Byte>, before: seq<Byte>, start: nat, p: nat, text: seq<Byte>)
    reads base
  {
    start <= p <= base.Length == |before| && p == start + |text| && base[start..p] == text
      && base[..start] == before[..start]
  }

  /** utility_push_data */
  method PushData(base: array<Byte>, p: nat, d: seq<Byte>, ghost before: seq<Byte>, ghost start: nat,
      ghost text: seq<Byte>)
    returns (q: nat)
    requires Filled(base, before, start, p, text) && p + |d| <= base.Length
    modifies base
    ensures q == p + |d| && Filled(base, before, start, q, text + d)
  {
    ghost var was := base[..];
    Memcpy(base, p, d);
    q := p + |d|;
    assert base[start..q] == was[start..p] + d;
  }

  /** http_push_field */
  method PushField(base: array<Byte>, p: nat, f: Field, ghost before: seq<Byte>, ghost start: nat,
      ghost text: seq<Byte>)
    returns (q: nat)
    requires Filled(base, before, start, p, text) && p + |FieldText(f)| <= base.Length
    modifies base
    ensures q == p + |FieldText(f)| && Filled(base, before, start, q, text + FieldText(f))
  {
    hide Filled;
    q := PushData(base, p, f.name, before, start, text);
    q := PushData(base, q, SEPARATOR, before, start, text + f.name);
    q := PushData(base, q, f.value, before, start, text + f.name + SEPARATOR);
    q := PushData(base, q, CRLF, before, start, text + f.name + SEPARATOR + f.value);
    assert text + f.name + SEPARATOR + f.value + CRLF == text + FieldText(f);
  }

  /** The digits of the body size, from a small array on the stack. */
  method LengthDigits(size: nat) returns (length: seq<Byte>)
    ensures length == Digits(size % U32_SIZE)
  {
    var n := size % U32_SIZE;
    U32LenIsExact(n);
    var k := U32Len(n);
    EstimateInTable(n);
    var storage := new Byte[16](_ => 0);
    Sprint(n, storage, k);
    length := storage[..k];
  }

  lemma FieldsTextSizes(status: seq<Byte>, date: seq<Byte>, kind: seq<Byte>, body: seq<Byte>)
    requires |date| >= 29
    ensures |ResponseText(status, date, kind, body)| == AllocatedSize(status, kind, LengthField(body).value, body)
  {
    hide Ascii, Digits;
    FieldsOf(date, kind, body);
  }

  /** The fields one after the other, as the code pushes them. */
  lemma FieldsOf(date: seq<Byte>, kind: seq<Byte>, body: seq<Byte>)
    requires |date| >= 29
    ensures FieldsText(ResponseFields(date, kind, body)) ==
            FieldText(ServerField()) + FieldText(DateField(date))
              + (if kind == [] then [] else FieldText(TypeField(kind)))
            + FieldText(LengthField(body))
  {
    hide FieldText, Ascii, Digits;
    var fields := ResponseFields(date, kind, body);
    var s, d, t, l := FieldText(ServerField()), FieldText(DateField(date)), FieldText(TypeField(kind)),
      FieldText(LengthField(body));
    assert fields[1..][0] == DateField(date);
    assert FieldsText([LengthField(body)]) == l;
    if kind == [] {
      assert fields[1..][1..] == [LengthField(body)];
    } else {
      assert fields[1..][1..] == [TypeField(kind), LengthField(body)];
      assert [TypeField(kind), LengthField(body)][1..] == [LengthField(body)];
      assert FieldsText([TypeField(kind), LengthField(body)]) == t + l;
      assert s + (d + (t + l)) == s + d + t + l;
    }
  }

  // ---------------------------------------------------------------- the response as one text

  /** What stands before each value: the line end of the line before it, the name and the separator. */
  lemma ServerLabel()
    ensures CRLF + Ascii("Server") + SEPARATOR + Ascii("reactor") == Ascii("\r\nServer: reactor")
  {
  }

  lemma DateLabel()
    ensures CRLF + Ascii("Date") + SEPARATOR == Ascii("\r\nDate: ")
  {
  }

  lemma TypeLabel()
    ensures CRLF + Ascii("Content-Type") + SEPARATOR == Ascii("\r\nContent-Type: ")
  {
  }

  lemma LengthLabel()
    ensures CRLF + Ascii("Content-Length") + SEPARATOR == Ascii("\r\nContent-Length: ")
  {
  }

  lemma VersionLabel()
    ensures VersionText() == Ascii("HTTP/1.1 ") && CRLF == Ascii("\r\n")
  {
  }

  /** A line end may be counted to the field before it or to the field behind it. */
  lemma LineEndMoves(f: Field, rest: seq<Byte>)
    ensures CRLF + (FieldText(f) + rest) == (CRLF + f.name + SEPARATOR) + f.value + (CRLF + rest)
  {
  }

  lemma Associates(a: seq<Byte>, b: seq<Byte>, c: seq<Byte>)
    ensures a + (b + c) == a + b + c
  {
  }

  /** The lines between the status line and the body. */
  function FieldLines(date: seq<Byte>, kind: seq<Byte>, body: seq<Byte>): seq<Byte>
    requires |date| >= 29
  {
    Ascii("\r\nServer: reactor")
    + (Ascii("\r\nDate: ") + date[..29]
       + ((if kind == [] then [] else Ascii("\r\nContent-Type: ") + kind)
          + (Ascii("\r\nContent-Length: ") + Digits(|body| % U32_SIZE) + CRLF)))
  }

  lemma FieldLinesAre(date: seq<Byte>, kind: seq<Byte>, body: seq<Byte>)
    requires |date| >= 29
    ensures CRLF + FieldsText(ResponseFields(date, kind, body)) == FieldLines(date, kind, body)
  {
    hide FieldText, Digits, Ascii, FieldsText, ResponseFields;
    ServerLabel();
    DateLabel();
    TypeLabel();
    LengthLabel();
    FieldsOf(date, kind, body);
    var s, d, t, l := FieldText(ServerField()), FieldText(DateField(date)), FieldText(TypeField(kind)),
      FieldText(LengthField(body));
    LineEndMoves(LengthField(body), []);
    assert l + [] == l && CRLF + [] == CRLF;
    if kind == [] {
      LineEndMoves(DateField(date), l);
      LineEndMoves(ServerField(), d + l);
      assert s + d + [] + l == s + (d + l);
    } else {
      LineEndMoves(TypeField(kind), l);
      LineEndMoves(DateField(date), t + l);
      LineEndMoves(ServerField(), d + (t + l));
      assert s + d + t + l == s + (d + (t + l));
    }
  }

  /** The response, as it goes over the line. */
  lemma ResponseIsText(status: seq<Byte>, date: seq<Byte>, kind: seq<Byte>, body: seq<Byte>)
    requires |date| >= 29
    ensures ResponseText(status, date, kind, body) ==
            Ascii("HTTP/1.1 ") + status + FieldLines(date, kind, body) + Ascii("\r\n") + body
  {
    hide Digits, Ascii, ResponseFields, FieldsText, VersionText, FieldLines;
    VersionLabel();
    FieldLinesAre(date, kind, body);
    Associates(VersionText() + status, CRLF, FieldsText(ResponseFields(date, kind, body)));
  }

  /** The allocated space is filled exactly, with the response and nothing else. */
  method WriteResponse(buffer: Buffer, status: seq<Byte>, date: seq<Byte>, kind: seq<Byte>, body: seq<Byte>)
    requires buffer.Valid() && |date| >= 29
    requires buffer.size + |ResponseText(status, date, kind, body)| <= HALF_WORD
    modifies buffer, buffer.base
    ensures buffer.Valid() && buffer.Contents() == old(buffer.Contents()) + ResponseText(status, date, kind, body)
    ensures buffer.base == old(buffer.base) || fresh(buffer.base)
  {
    hide FieldText, Filled, Digits, Ascii, ResponseText;
    var length := LengthDigits(|body|);
    FieldsTextSizes(status, date, kind, body);
    var start := buffer.Allocate(AllocatedSize(status, kind, length, body));
    var p := PushAll(buffer.base, start, status, date, kind, length, body);
    assert p == buffer.size;
    assert buffer.base[..p] == buffer.base[..start] + buffer.base[start..p];
  }

  /** http.c:192-202. */
  method PushAll(base: array<Byte>, start: nat, status: seq<Byte>, date: seq<Byte>, kind: seq<Byte>,
      length: seq<Byte>, body: seq<Byte>)
    returns (p: nat)
    requires |date| >= 29 && length == LengthField(body).value
    requires start + |ResponseText(status, date, kind, body)| <= base.Length
    modifies base
    ensures p == start + |ResponseText(status, date, kind, body)|
    ensures base[..start] == old(base[..start]) && base[start..p] == ResponseText(status, date, kind, body)
  {
    hide Digits, Ascii, ResponseFields, FieldsText, VersionText;
    ghost var before := base[..];
    assert base[start..start] == [];
    p := PushData(base, start, VersionText(), before, start, []);
    assert [] + VersionText() == VersionText();
    ghost var text := VersionText();
    p := PushData(base, p, status, before, start, text);
    text := text + status;
    p := PushData(base, p, CRLF, before, start, text);
    text := text + CRLF;
    p := PushFields(base, p, date, kind, length, body, before, start, text);
    text := text + FieldsText(ResponseFields(date, kind, body));
    p := PushData(base, p, CRLF, before, start, text);
    text := text + CRLF;
    p := PushData(base, p, body, before, start, text);
  }

  /** http.c:195-200. */
  method PushFields(base: array<Byte>, from: nat, date: seq<Byte>, kind: seq<Byte>, length: seq<Byte>, body: seq<Byte>,
                    ghost before: seq<Byte>, ghost start: nat, ghost text: seq<Byte>)
    returns (p: nat)
    requires |date| >= 29 && length == LengthField(body).value && Filled(base, before, start, from, text)
    requires from + |FieldsText(ResponseFields(date, kind, body))| <= base.Length
    modifies base
    ensures p == from + |FieldsText(ResponseFields(date, kind, body))|
    ensures Filled(base, before, start, p, text + FieldsText(ResponseFields(date, kind, body)))
  {
    hide FieldText, Digits, Ascii, ServerField, DateField, TypeField, FieldsText, Filled, ResponseFields;
    FieldsOf(date, kind, body);
    ghost var server, day, media, size := FieldText(ServerField()), FieldText(DateField(date)),
      FieldText(TypeField(kind)), FieldText(LengthField(body));
    p := PushField(base, from, ServerField(), before, start, text);
    p := PushField(base, p, DateField(date), before, start, text + server);
    ghost var pushed := server + day;
    assert text + server + day == text + pushed;
    if kind != [] {
      p := PushField(base, p, TypeField(kind), before, start, text + pushed);
      assert text + pushed + media == text + (pushed + media);
      pushed := pushed + media;
    }
    p := PushField(base, p, Field(Ascii("Content-Length"), length), before, start, text + pushed);
    assert text + pushed + size == text + (pushed + size);
    assert kind == [] ==> server + day + [] == server + day;
  }
}
