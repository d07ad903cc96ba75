/** The input classifier of src/utils/dataTypeUtils.ts: six anchored patterns
    tried in a fixed order on the trimmed input (phone, e-mail, SMS, WiFi,
    coordinates, URL), the two normalisers, and the scheme-prefixed payload
    that becomes the QR code's content. */
module DataTypeUtils {
  import opened Options
  import opened Strings
  import opened Seqs
  import opened Regex

  datatype DataType = Phone | Email | Url | Sms | Wifi | Geo | Text

  datatype FormatResult = FormatResult(kind: DataType, original: string, formatted: string, description: string)

  /** The string literal each type is in the source's `DataType` union. */
  function TypeName(k: DataType): string {
    match k
    case Phone => "phone"
    case Email => "email"
    case Url => "url"
    case Sms => "sms"
    case Wifi => "wifi"
    case Geo => "geo"
    case Text => "text"
  }

  // ----- The patterns -----

  function One(k: CharClass): Piece { Piece(k, 1, AtMost(1)) }
  function Maybe(k: CharClass): Piece { Piece(k, 0, AtMost(1)) }
  function Literal(w: string): seq<Piece> { seq(|w|, i requires 0 <= i < |w| => One(Exactly(w[i]))) }
  function Plain(ps: seq<Piece>): Term { Term(None, [ps], false) }

  /** `[- ]?` */
  const Separator := Maybe(OneOf(['-', ' ']))
  /** `\+?82[- ]?`, the body of the optional country-code group. */
  const CountryCode := [Maybe(Exactly('+')), One(Exactly('8')), One(Exactly('2')), Separator]
  /** `0?1[0-9][- ]?\d{3,4}[- ]?\d{4}`: a domestic mobile number. */
  const MobileNumber := [Maybe(Exactly('0')), One(Exactly('1')), One(Digit), Separator,
                         Piece(Digit, 3, AtMost(4)), Separator, Piece(Digit, 4, AtMost(4))]
  /** `\+?\d{1,3}[- ]?`, the body of the optional international prefix group. */
  const IntlPrefix := [Maybe(Exactly('+')), Piece(Digit, 1, AtMost(3)), Separator]
  /** `\d{2,4}[- ]?\d{3,4}[- ]?\d{4}` */
  const IntlNumber := [Piece(Digit, 2, AtMost(4)), Separator, Piece(Digit, 3, AtMost(4)), Separator, Piece(Digit, 4, AtMost(4))]

  /** `^(\+?82[- ]?)?0?1[0-9][- ]?\d{3,4}[- ]?\d{4}$|^(\+?\d{1,3}[- ]?)?\d{2,4}[- ]?\d{3,4}[- ]?\d{4}$` */
  const PhonePattern: Pattern := [
    [Term(Some(1), [CountryCode], true), Plain(MobileNumber)],
    [Term(Some(2), [IntlPrefix], true), Plain(IntlNumber)]
  ]

  /** `[^\s@]+` */
  const NoSpaceNoAt := Piece(NotSpaceNorAt, 1, Unbounded)
  const EmailPieces := [NoSpaceNoAt, One(Exactly('@')), NoSpaceNoAt, One(Exactly('.')), NoSpaceNoAt]
  /** `^[^\s@]+@[^\s@]+\.[^\s@]+$` */
  const EmailPattern: Pattern := [
    [Plain([NoSpaceNoAt, One(Exactly('@')), NoSpaceNoAt, One(Exactly('.')), NoSpaceNoAt])]
  ]

  /** `https?:\/\/` */
  const SchemePieces := Literal("http") + [Maybe(Exactly('s'))] + Literal("://")
  /** `\/.*` */
  const PathPieces := [One(Exactly('/')), Piece(NotLineTerminator, 0, Unbounded)]
  /** `[a-zA-Z0-9-]+` */
  const HostLabel := Piece(HostChar, 1, Unbounded)
  /** `^(https?:\/\/)?(www\.)?[a-zA-Z0-9-]+\.[a-zA-Z]{2,}(\/.*)?$|^(https?:\/\/)?[a-zA-Z0-9-]+\.(com|net|org|co\.kr|kr|io|dev|tech)(\/.*)?$` */
  const UrlPattern: Pattern := [
    [Term(Some(1), [SchemePieces], true), Term(Some(2), [Literal("www.")], true),
     Plain([HostLabel, One(Exactly('.')), Piece(Letter, 2, Unbounded)]),
     Term(Some(3), [PathPieces], true)],
    [Term(Some(4), [SchemePieces], true),
     Plain([HostLabel, One(Exactly('.'))]),
     Term(Some(5), [Literal("com"), Literal("net"), Literal("org"), Literal("co.kr"),
                    Literal("kr"), Literal("io"), Literal("dev"), Literal("tech")], false),
     Term(Some(6), [PathPieces], true)]
  ]

  /** `[:：]\s*`: an ASCII or fullwidth colon and optional whitespace. */
  const ColonThenSpace := [One(OneOf([':', '：'])), Piece(Space, 0, Unbounded)]

  /** `^(sms|SMS|문자)[:：]\s*(\+?82[- ]?)?0?1[0-9][- ]?\d{3,4}[- ]?\d{4}$` */
  const SmsPattern: Pattern := [
    [Term(Some(1), [Literal("sms"), Literal("SMS"), Literal("문자")], false),
     Plain(ColonThenSpace),
     Term(Some(2), [CountryCode], true),
     Plain(MobileNumber)]
  ]

  /** `^(wifi|WiFi|WIFI)[:：]\s*([^:]+)[:：]\s*(.+)$` */
  const WifiPattern: Pattern := [
    [Term(Some(1), [Literal("wifi"), Literal("WiFi"), Literal("WIFI")], false),
     Plain(ColonThenSpace),
     Term(Some(2), [[Piece(NotColon, 1, Unbounded)]], false),
     Plain(ColonThenSpace),
     Term(Some(3), [[Piece(NotLineTerminator, 1, Unbounded)]], false)]
  ]

  /** `-?\d+\.?\d*`: one coordinate. */
  const Coordinate := [Maybe(Exactly('-')), Piece(Digit, 1, Unbounded), Maybe(Exactly('.')), Piece(Digit, 0, Unbounded)]
  /** `\s*,\s*` */
  const CommaPieces := [Piece(Space, 0, Unbounded), One(Exactly(',')), Piece(Space, 0, Unbounded)]
  const GeoPieces := Coordinate + CommaPieces + Coordinate
  /** `^-?\d+\.?\d*\s*,\s*-?\d+\.?\d*$` */
  const GeoPattern: Pattern := [[Plain(GeoPieces)]]

  // ----- Normalisation -----

  predicate IsPhoneSeparator(c: char) {
    IsWhitespace(c) || c == '-'
  }

  predicate NoSeparators(s: string) {
    forall k :: 0 <= k < |s| ==> !IsPhoneSeparator(s[k])
  }

  /** `replace(/[\s-]/g, '')`: every whitespace character and hyphen deleted. */
  function StripSeparators(phone: string): (r: string)
    ensures NoSeparators(r)
    ensures Count(r, Digit) == Count(phone, Digit)
    ensures NoSeparators(phone) ==> r == phone
  {
    if phone == [] then []
    else
      var head := if IsPhoneSeparator(phone[0]) then [] else [phone[0]];
      CountConcat(head, StripSeparators(phone[1..]), Digit);
      assert NoSeparators(phone) ==> phone == [phone[0]] + phone[1..];
      head + StripSeparators(phone[1..])
  }

  /** Stripping keeps every other character, in order and as often as it occurs. */
  lemma {:induction false} StripSeparatorsKeeps(phone: string)
    ensures IsSubsequence(StripSeparators(phone), phone)
    ensures forall c :: multiset(StripSeparators(phone))[c] == if IsPhoneSeparator(c) then 0 else multiset(phone)[c]
  {
    if phone != [] {
      StripSeparatorsKeeps(phone[1..]);
      var tail := StripSeparators(phone[1..]);
      assert phone == [phone[0]] + phone[1..];
      if !IsPhoneSeparator(phone[0]) {
        assert StripSeparators(phone) == [phone[0]] + tail;
        assert StripSeparators(phone)[1..] == tail;
      } else {
        assert StripSeparators(phone) == tail;
      }
    }
  }

  /** A leading `+82`, or a leading `82` on a string longer than 10, becomes `0`. */
  function DropCountryCode(s: string): (r: string)
    ensures StartsWith(r, "0") || r == s
    ensures NoSeparators(s) ==> NoSeparators(r)
  {
    if StartsWith(s, "+82") then "0" + s[3..]
    else if StartsWith(s, "82") && |s| > 10 then "0" + s[2..]
    else s
  }

  /** Exactly a string with a country code changes, and what changed can be
      undone: the new leading `0` stands for the `+82` or `82` it replaced. */
  lemma DropCountryCodeInverse(s: string)
    ensures var r := DropCountryCode(s);
            && (r != s <==> StartsWith(s, "+82") || (StartsWith(s, "82") && |s| > 10))
            && (r != s ==> r != [] && r[0] == '0' && (s == "+82" + r[1..] || (s == "82" + r[1..] && |s| > 10)))
  {
    if StartsWith(s, "+82") {
      assert s == s[..3] + s[3..];
    } else if StartsWith(s, "82") && |s| > 10 {
      assert s == s[..2] + s[2..];
    }
  }

  /** The guess that a bare 8-character number is a mobile number: `010` in front
      when the string has length 8 and does not start with `0`. */
  predicate GuessesMobilePrefix(s: string) {
    !StartsWith(s, "0") && |s| == 8
  }

  function GuessMobilePrefix(s: string): (r: string)
    ensures GuessesMobilePrefix(s) ==> |r| == 11 && StartsWith(r, "010") && r[3..] == s
    ensures !GuessesMobilePrefix(s) ==> r == s
    ensures NoSeparators(s) ==> NoSeparators(r)
  {
    if GuessesMobilePrefix(s) then "010" + s else s
  }

  /** `normalizePhoneNumber`: the three rewrites in order. */
  function NormalizePhoneNumber(phone: string): (r: string)
    ensures NoSeparators(r)
  {
    GuessMobilePrefix(DropCountryCode(StripSeparators(phone)))
  }

  predicate HasScheme(s: string) {
    StartsWith(s, "http://") || StartsWith(s, "https://")
  }

  /** `normalizeUrl`: the trimmed URL, with `https://` in front unless it
      already starts with `http://` or `https://`. The source distinguishes a
      `www.` start but prepends the same prefix in both arms. */
  function NormalizeUrl(url: string): (r: string)
    ensures HasScheme(r)
    ensures HasScheme(Trim(url)) ==> r == Trim(url)
    ensures !HasScheme(Trim(url)) ==> r == "https://" + Trim(url)
  {
    var normalized := Trim(url);
    if HasScheme(normalized) then normalized else "https://" + normalized
  }

  /** The parts put back together with `sep` between them (`Array.prototype.join`). */
  function Join(parts: seq<string>, sep: char): string {
    if parts == [] then []
    else if |parts| == 1 then parts[0]
    else parts[0] + [sep] + Join(parts[1..], sep)
  }

  /** `String.prototype.split` on a single-character separator: the pieces
      between the separators, one more than there are separators. */
  function Split(s: string, sep: char): (parts: seq<string>)
    ensures |parts| == Count(s, Exactly(sep)) + 1
    ensures Join(parts, sep) == s
    ensures forall k :: 0 <= k < |parts| ==> sep !in parts[k]
  {
    if s == [] then [[]]
    else
      var tail := Split(s[1..], sep);
      if s[0] == sep then
        assert [s[0]] + s[1..] == s;
        [[]] + tail
      else
        var parts := [[s[0]] + tail[0]] + tail[1..];
        assert Join(parts, sep) == s by {
          if |tail| > 1 {
            assert parts[1..] == tail[1..];
          }
          assert [s[0]] + s[1..] == s;
        }
        parts
  }

  // ----- The classifier -----

  /** The description shown for blank input. */
  const BlankDescription := "텍스트"

  /** The Korean description of a recognised input; `subject` is the part it
      names (the number, address, network or coordinates), unused for text. */
  function Describe(kind: DataType, subject: string): string {
    match kind
    case Phone => "전화번호로 인식 → " + subject + "번으로 전화걸기"
    case Email => "이메일로 인식 → " + subject + "로 메일 보내기"
    case Sms => "문자 메시지로 인식 → " + subject + "로 문자 보내기"
    case Wifi => "WiFi 정보로 인식 → " + subject + " 네트워크 자동 연결"
    case Geo => "좌표로 인식 → " + subject + " 위치 지도에 표시"
    case Url => "웹사이트로 인식 → " + subject + " 페이지 열기"
    case Text => "일반 텍스트"
  }

  /** The result for a recognised phone number: the number normalised. */
  function FormatPhone(input: string, trimmed: string): FormatResult {
    var normalized := NormalizePhoneNumber(trimmed);
    FormatResult(Phone, input, "tel:" + normalized, Describe(Phone, normalized))
  }

  function FormatEmail(input: string, trimmed: string): FormatResult {
    FormatResult(Email, input, "mailto:" + trimmed, Describe(Email, trimmed))
  }

  /** The result for an SMS request: the second group of the match, normalised
      as a phone number (empty when the group took no part in the match). */
  function FormatSms(input: string, trimmed: string): FormatResult
    requires Test(SmsPattern, trimmed)
  {
    var phoneNumber := NormalizePhoneNumber(Captured(trimmed, Exec(SmsPattern, trimmed).value, 2));
    FormatResult(Sms, input, "sms:" + phoneNumber, Describe(Sms, phoneNumber))
  }

  /** The result for WiFi credentials: groups 2 and 3 of the match, trimmed. */
  function FormatWifi(input: string, trimmed: string): FormatResult
    requires Test(WifiPattern, trimmed)
  {
    var caps := Exec(WifiPattern, trimmed).value;
    var networkName := Trim(Captured(trimmed, caps, 2));
    var password := Trim(Captured(trimmed, caps, 3));
    FormatResult(Wifi, input, "WIFI:T:WPA;S:" + networkName + ";P:" + password + ";;", Describe(Wifi, networkName))
  }

  /** The result for a coordinate pair: the two sides of the comma, trimmed. */
  function FormatGeo(input: string, trimmed: string): FormatResult
    requires Test(GeoPattern, trimmed)
  {
    var parts := Split(trimmed, ',');
    GeoHasOneComma(trimmed);
    var lat, lng := Trim(parts[0]), Trim(parts[1]);
    FormatResult(Geo, input, "geo:" + lat + "," + lng, Describe(Geo, lat + ", " + lng))
  }

  function FormatUrl(input: string, trimmed: string): FormatResult {
    var normalized := NormalizeUrl(trimmed);
    FormatResult(Url, input, normalized, Describe(Url, normalized))
  }

  /** `formatDataType`: blank input is text; otherwise the first of the six
      patterns that accepts the trimmed input decides the kind. */
  function FormatDataType(input: string): (r: FormatResult)
    ensures r.original == input
    ensures r.kind == Text ==> r.formatted == input
    ensures Trim(input) == [] ==> r.kind == Text && r.description == BlankDescription
  {
    var trimmed := Trim(input);
    if trimmed == [] then FormatResult(Text, input, input, BlankDescription)
    else if Test(PhonePattern, trimmed) then FormatPhone(input, trimmed)
    else if Test(EmailPattern, trimmed) then FormatEmail(input, trimmed)
    else if Test(SmsPattern, trimmed) then FormatSms(input, trimmed)
    else if Test(WifiPattern, trimmed) then FormatWifi(input, trimmed)
    else if Test(GeoPattern, trimmed) then FormatGeo(input, trimmed)
    else if Test(UrlPattern, trimmed) then FormatUrl(input, trimmed)
    else FormatResult(Text, input, input, Describe(Text, input))
  }

  /** Which branch produced a result of each kind. */
  lemma FormatDispatch(input: string)
    ensures var t := Trim(input); var r := FormatDataType(input);
            && (r.kind == Phone ==> Test(PhonePattern, t) && r == FormatPhone(input, t))
            && (r.kind == Email ==> Test(EmailPattern, t) && r == FormatEmail(input, t))
            && (r.kind == Sms ==> Test(SmsPattern, t) && r == FormatSms(input, t))
            && (r.kind == Wifi ==> Test(WifiPattern, t) && r == FormatWifi(input, t))
            && (r.kind == Geo ==> Test(GeoPattern, t) && r == FormatGeo(input, t))
            && (r.kind == Url ==> Test(UrlPattern, t) && r == FormatUrl(input, t))
  {
  }

  // ----- Lemmas -----
  /** Every pattern numbers each of its groups once per branch. */
  predicate WellFormedPattern(p: Pattern) {
    forall b :: 0 <= b < |p| ==> WellFormed(p[b])
  }

  lemma PatternsWellFormed()
    ensures WellFormedPattern(PhonePattern) && WellFormedPattern(EmailPattern) && WellFormedPattern(SmsPattern)
    ensures WellFormedPattern(WifiPattern) && WellFormedPattern(GeoPattern) && WellFormedPattern(UrlPattern)
  {
    GroupsAscendingWellFormed(PhonePattern[0], 0);
    GroupsAscendingWellFormed(PhonePattern[1], 0);
    GroupsAscendingWellFormed(EmailPattern[0], 0);
    GroupsAscendingWellFormed(GeoPattern[0], 0);
    SmsWellFormed();
    WifiWellFormed();
    UrlWellFormed();
  }

  lemma SmsWellFormed()
    ensures WellFormedPattern(SmsPattern)
  {
    var sms := SmsPattern[0];
    assert sms[1..][1..] == sms[2..] && sms[2..][1..] == sms[3..];
    assert GroupsAscending(sms[3..], 2) && GroupsAscending(sms[2..], 1);
    GroupsAscendingWellFormed(sms, 0);
  }

  lemma WifiWellFormed()
    ensures WellFormedPattern(WifiPattern)
  {
    var wifi := WifiPattern[0];
    assert wifi[1..][1..] == wifi[2..] && wifi[2..][1..] == wifi[3..] && wifi[3..][1..] == wifi[4..];
    assert wifi[2].group == Some(2) && wifi[3].group == None && wifi[4].group == Some(3);
    assert GroupsAscending(wifi[4..], 2);
    assert GroupsAscending(wifi[3..], 2);
    assert GroupsAscending(wifi[2..], 1);
    GroupsAscendingWellFormed(wifi, 0);
  }

  lemma UrlWellFormed()
    ensures WellFormedPattern(UrlPattern)
  {
    var url0, url1 := UrlPattern[0], UrlPattern[1];
    assert url0[1..][1..] == url0[2..] && url0[2..][1..] == url0[3..];
    assert GroupsAscending(url0[3..], 2) && GroupsAscending(url0[2..], 2);
    assert GroupsAscending(url1[3..], 5) && GroupsAscending(url1[2..], 4);
    assert url1[1..][1..] == url1[2..] && url1[2..][1..] == url1[3..];
    GroupsAscendingWellFormed(url0, 0);
    GroupsAscendingWellFormed(url1, 0);
  }

  /** A word of a run of pieces is in the language of the one-term branch made of them. */
  lemma PlainLanguage(ps: seq<Piece>, t: string)
    requires Accepts(ps, t)
    ensures LangFrom([Plain(ps)], t, 0)
  {
    var ts := [Plain(ps)];
    assert t[0..|t|] == t && ts[0].alts[0] == ps;
    assert AltAccepts(ts[0], 0, t[0..|t|]);
    assert ts[1..] == [] && LangFrom(ts[1..], t, |t|);
  }

  /** A suffix holds no more characters of a class than the whole. */
  lemma CountSuffix(t: string, j: nat, k: CharClass)
    requires j <= |t|
    ensures Count(t, k) >= Count(t[j..], k)
  {
    CountConcat(t[..j], t[j..], k);
    assert t[..j] + t[j..] == t;
  }

  // ----- Phone numbers -----

  lemma MobileNumberDigits()
    ensures MinCount(MobileNumber, Digit) == 9
  {
    var m := MobileNumber;
    var m6, m5, m4, m3, m2, m1 := m[6..], m[5..], m[4..], m[3..], m[2..], m[1..];
    assert m6 == [Piece(Digit, 4, AtMost(4))] && m6[1..] == [];
    assert m5[0] == Separator && m5[1..] == m6;
    assert m4[0] == Piece(Digit, 3, AtMost(4)) && m4[1..] == m5;
    assert m3[0] == Separator && m3[1..] == m4;
    assert m2[0] == One(Digit) && m2[1..] == m3;
    assert m1[0] == One(Exactly('1')) && m1[1..] == m2;
    assert m[0] == Maybe(Exactly('0')) && m[1..] == m1;
    assert !Inside(OneOf(['-', ' ']), Digit) && Inside(Exactly('1'), Digit) by {
      assert !Digit.Has('-') && Digit.Has('1');
    }
    assert MinCount(m6, Digit) == 4;
    assert MinCount(m5, Digit) == 4;
    assert MinCount(m4, Digit) == 7;
    assert MinCount(m3, Digit) == 7;
    assert MinCount(m2, Digit) == 8;
    assert MinCount(m1, Digit) == 9;
  }

  lemma IntlNumberDigits()
    ensures MinCount(IntlNumber, Digit) == 9
  {
    var m := IntlNumber;
    var m4, m3, m2, m1 := m[4..], m[3..], m[2..], m[1..];
    assert m4 == [Piece(Digit, 4, AtMost(4))] && m4[1..] == [];
    assert m3[0] == Separator && m3[1..] == m4;
    assert m2[0] == Piece(Digit, 3, AtMost(4)) && m2[1..] == m3;
    assert m1[0] == Separator && m1[1..] == m2;
    assert m[0] == Piece(Digit, 2, AtMost(4)) && m[1..] == m1;
    assert !Inside(OneOf(['-', ' ']), Digit) by {
      assert !Digit.Has('-');
    }
    assert MinCount(m4, Digit) == 4;
    assert MinCount(m3, Digit) == 4;
    assert MinCount(m2, Digit) == 7;
    assert MinCount(m1, Digit) == 7;
  }

  /** Every input the phone pattern accepts ends in a number of at least nine digits. */
  lemma PhoneHasNineDigits(t: string)
    requires Test(PhonePattern, t)
    ensures Count(t, Digit) >= 9
  {
    PatternsWellFormed();
    ExecSpans(PhonePattern, t);
    var c := Exec(PhonePattern, t).value;
    var b, pos :| 0 <= b < |PhonePattern| && Spans(PhonePattern[b], t, c, pos) && pos[0] == 0;
    assert |PhonePattern[b]| == 2 && pos[2] == |t|;
    assert SpanAt(PhonePattern[b], t, c, pos, 1);
    var number := t[pos[1]..pos[2]];
    if b == 0 {
      assert Accepts(MobileNumber, number);
      AcceptsMinCount(MobileNumber, number, Digit);
      MobileNumberDigits();
    } else {
      assert Accepts(IntlNumber, number);
      AcceptsMinCount(IntlNumber, number, Digit);
      IntlNumberDigits();
    }
    assert number == t[pos[1]..];
    CountSuffix(t, pos[1], Digit);
  }

  // ----- Coordinates -----

  /** The coordinate pattern's single branch is one run of pieces, so a match is a word of them. */
  lemma GeoAccepts(t: string)
    requires Test(GeoPattern, t)
    ensures Accepts(GeoPieces, t)
  {
    PatternsWellFormed();
    ExecSpans(GeoPattern, t);
    var c := Exec(GeoPattern, t).value;
    var b, pos :| 0 <= b < |GeoPattern| && Spans(GeoPattern[b], t, c, pos) && pos[0] == 0;
    assert b == 0 && |GeoPattern[0]| == 1 && pos[1] == |t|;
    assert SpanAt(GeoPattern[0], t, c, pos, 0);
    assert t[pos[0]..pos[1]] == t;
  }

  /** The coordinate pattern accepts exactly the words of its pieces. */
  lemma GeoTestIff(t: string)
    ensures Test(GeoPattern, t) <==> Accepts(GeoPieces, t)
  {
    if Test(GeoPattern, t) {
      GeoAccepts(t);
    }
    if Accepts(GeoPieces, t) {
      PlainLanguage(GeoPieces, t);
      ExecComplete(GeoPattern, t, 0);
    }
  }

  lemma GeoCommaBounds()
    ensures MinCount(GeoPieces, Exactly(',')) == 1
    ensures BoundedFor(GeoPieces, ',') && MaxCount(GeoPieces, ',') == 1
  {
    var comma := Exactly(',');
    MinCountConcat(Coordinate, CommaPieces, comma);
    MinCountConcat(Coordinate + CommaPieces, Coordinate, comma);
    var n := Coordinate;
    assert MinCount(n[3..], comma) == 0 && MinCount(n[2..], comma) == 0 && MinCount(n[1..], comma) == 0 && MinCount(n, comma) == 0;
    var m := CommaPieces;
    assert MinCount(m[2..], comma) == 0 && MinCount(m[1..], comma) == 1 && MinCount(m, comma) == 1;
    assert BoundedFor(GeoPieces, ',');
    MaxCountConcat(Coordinate, CommaPieces, ',');
    MaxCountConcat(Coordinate + CommaPieces, Coordinate, ',');
    assert MaxCount(n[3..], ',') == 0 && MaxCount(n[2..], ',') == 0 && MaxCount(n[1..], ',') == 0 && MaxCount(n, ',') == 0;
    assert MaxCount(m[2..], ',') == 0 && MaxCount(m[1..], ',') == 1 && MaxCount(m, ',') == 1;
  }

  /** A coordinate pair holds exactly one comma, so splitting it on commas gives latitude and longitude. */
  lemma GeoHasOneComma(t: string)
    requires Test(GeoPattern, t)
    ensures Count(t, Exactly(',')) == 1
  {
    GeoAccepts(t);
    GeoCommaBounds();
    AcceptsMinCount(GeoPieces, t, Exactly(','));
    AcceptsMaxCount(GeoPieces, t, ',');
  }

  /** Replacing a country code by a trunk `0` costs one digit at most. */
  lemma DropCountryCodeDigits(s: string)
    ensures Count(DropCountryCode(s), Digit) + 1 >= Count(s, Digit)
  {
    if StartsWith(s, "+82") {
      CountConcat(s[..3], s[3..], Digit);
      assert s[..3] + s[3..] == s;
      CountConcat("0", s[3..], Digit);
      assert s[..3] == "+82";
      assert Count(s[..3], Digit) == 2;
    } else if StartsWith(s, "82") && |s| > 10 {
      CountConcat(s[..2], s[2..], Digit);
      assert s[..2] + s[2..] == s;
      CountConcat("0", s[2..], Digit);
      assert s[..2] == "82";
      assert Count(s[..2], Digit) == 2;
    }
  }

  /** On a number of at least nine digits the `010` guess for eight-character
      numbers never applies, and at least eight digits reach the payload. */
  lemma NormalizeLongNumber(w: string)
    requires Count(w, Digit) >= 9
    ensures NormalizePhoneNumber(w) == DropCountryCode(StripSeparators(w))
    ensures Count(NormalizePhoneNumber(w), Digit) >= 8
  {
    var s := StripSeparators(w);
    DropCountryCodeDigits(s);
    assert |s| >= 9;
  }

  /** A phone number's payload is the number without separators, with a
      Korean country code replaced by `0`, and keeps at least eight digits. */
  lemma PhonePayload(input: string)
    requires FormatDataType(input).kind == Phone
    ensures var payload := DropCountryCode(StripSeparators(Trim(input)));
            && FormatDataType(input).formatted == "tel:" + payload
            && NoSeparators(payload)
            && Count(payload, Digit) >= 8
  {
    PhoneHasNineDigits(Trim(input));
    NormalizeLongNumber(Trim(input));
  }

  /** A normalised number that the three rewrites leave alone. */
  predicate Normalised(s: string) {
    && NoSeparators(s)
    && !StartsWith(s, "+82") && !(StartsWith(s, "82") && |s| > 10)
    && !GuessesMobilePrefix(s)
  }

  lemma NormalizeGivesNormalised(phone: string)
    ensures Normalised(NormalizePhoneNumber(phone))
  {
    var s := StripSeparators(phone);
    var d := DropCountryCode(s);
    var r := GuessMobilePrefix(d);
    if GuessesMobilePrefix(d) {
      assert r[..1] == r[..3][..1];
      assert r[0] == '0';
    } else if d != s {
      assert d[0] == '0';
    }
  }

  /** Normalising a normalised number changes nothing. */
  lemma NormalizePhoneIdempotent(phone: string)
    ensures NormalizePhoneNumber(NormalizePhoneNumber(phone)) == NormalizePhoneNumber(phone)
  {
    var r := NormalizePhoneNumber(phone);
    NormalizeGivesNormalised(phone);
    assert DropCountryCode(r) == r;
  }

  // ----- URLs -----

  /** Normalising a normalised URL changes nothing: no second scheme is added. */
  lemma NormalizeUrlIdempotent(url: string)
    ensures NormalizeUrl(NormalizeUrl(url)) == NormalizeUrl(url)
  {
    var r := NormalizeUrl(url);
    var t := Trim(url);
    if r != t {
      assert r == "https://" + t;
      assert r[|r| - 1] == if t == [] then '/' else t[|t| - 1];
    }
    TrimOfTrimmed(r);
  }

  // ----- E-mail addresses -----

  /** The e-mail pattern accepts exactly the words of its pieces. */
  lemma EmailTestIff(t: string)
    ensures Test(EmailPattern, t) <==> Accepts(EmailPieces, t)
  {
    assert EmailPattern == [[Plain(EmailPieces)]];
    if Test(EmailPattern, t) {
      PatternsWellFormed();
      ExecSpans(EmailPattern, t);
      var c := Exec(EmailPattern, t).value;
      var b, pos :| 0 <= b < |EmailPattern| && Spans(EmailPattern[b], t, c, pos) && pos[0] == 0;
      assert b == 0 && |EmailPattern[0]| == 1 && pos[1] == |t|;
      assert SpanAt(EmailPattern[0], t, c, pos, 0);
      assert t[pos[0]..pos[1]] == t;
    }
    if Accepts(EmailPieces, t) {
      PlainLanguage(EmailPieces, t);
      ExecComplete(EmailPattern, t, 0);
    }
  }

  /** An e-mail address holds exactly one `@`. */
  lemma EmailShape(t: string)
    requires Test(EmailPattern, t)
    ensures Count(t, Exactly('@')) == 1
  {
    EmailTestIff(t);
    EmailAtBounds();
    AcceptsMinCount(EmailPieces, t, Exactly('@'));
    AcceptsMaxCount(EmailPieces, t, '@');
  }

  lemma EmailAtBounds()
    ensures MinCount(EmailPieces, Exactly('@')) == 1
    ensures BoundedFor(EmailPieces, '@') && MaxCount(EmailPieces, '@') == 1
  {
    var m := EmailPieces;
    var at := Exactly('@');
    assert !Inside(NotSpaceNorAt, at) && !Inside(Exactly('.'), at) && Inside(at, at);
    assert !NotSpaceNorAt.Has('@') && !Exactly('.').Has('@') && at.Has('@');
    var m4, m3, m2, m1 := m[4..], m[3..], m[2..], m[1..];
    assert m4 == [NoSpaceNoAt] && m4[1..] == [];
    assert m3[0] == One(Exactly('.')) && m3[1..] == m4;
    assert m2[0] == NoSpaceNoAt && m2[1..] == m3;
    assert m1[0] == One(at) && m1[1..] == m2;
    assert m[0] == NoSpaceNoAt && m[1..] == m1;
    assert MinCount(m4, at) == 0;
    assert MinCount(m3, at) == 0;
    assert MinCount(m2, at) == 0;
    assert MinCount(m1, at) == 1;
    assert BoundedFor(m, '@');
    assert MaxCount(m4, '@') == 0;
    assert MaxCount(m3, '@') == 0;
    assert MaxCount(m2, '@') == 0;
    assert MaxCount(m1, '@') == 1;
  }

  /** An e-mail address is passed on as it is, after `mailto:`. */
  lemma EmailPayload(input: string)
    requires FormatDataType(input).kind == Email
    ensures FormatDataType(input).formatted == "mailto:" + Trim(input)
    ensures Count(Trim(input), Exactly('@')) == 1
  {
    FormatDispatch(input);
    EmailShape(Trim(input));
  }

  // ----- Words of piece sequences -----

  lemma AcceptsOne(k: CharClass, rest: seq<Piece>, w: string)
    requires Accepts([One(k)] + rest, w)
    ensures w != [] && k.Has(w[0]) && Accepts(rest, w[1..])
  {
    var q := [One(k).Next()] + rest;
    assert q[1..] == rest && ([One(k)] + rest)[1..] == rest;
  }

  lemma AcceptsMaybe(k: CharClass, rest: seq<Piece>, w: string)
    requires Accepts([Maybe(k)] + rest, w)
    ensures (w != [] && k.Has(w[0]) && Accepts(rest, w[1..])) || Accepts(rest, w)
  {
    var q := [Maybe(k).Next()] + rest;
    assert q[1..] == rest && ([Maybe(k)] + rest)[1..] == rest;
  }

  /** A literal accepts its own text and nothing else. */
  lemma {:induction false} AcceptsLiteral(w: string, x: string)
    requires Accepts(Literal(w), x)
    ensures x == w
    decreases |w|
  {
    if w != [] {
      assert Literal(w) == [One(Exactly(w[0]))] + Literal(w[1..]);
      AcceptsOne(Exactly(w[0]), Literal(w[1..]), x);
      AcceptsLiteral(w[1..], x[1..]);
      assert x == [x[0]] + x[1..];
    }
  }

  /** The keywords the SMS and WiFi patterns start with. */
  predicate IsSmsKeyword(w: string) {
    w == "sms" || w == "SMS" || w == "문자"
  }

  predicate IsWifiKeyword(w: string) {
    w == "wifi" || w == "WiFi" || w == "WIFI"
  }

  /** A word of `[:：]\s*`: an ASCII or fullwidth colon, then only whitespace. */
  predicate IsColonThenSpace(x: string) {
    x != [] && (x[0] == ':' || x[0] == '：') && forall k :: 1 <= k < |x| ==> IsWhitespace(x[k])
  }

  lemma ColonThenSpaceWords(x: string)
    requires Accepts(ColonThenSpace, x)
    ensures IsColonThenSpace(x)
  {
    var spaces := [Piece(Space, 0, Unbounded)];
    assert ColonThenSpace == [One(OneOf([':', '：']))] + spaces;
    AcceptsOne(OneOf([':', '：']), spaces, x);
    AcceptsInside(spaces, x[1..], Space);
    assert forall k :: 1 <= k < |x| ==> x[k] == x[1..][k - 1];
  }

  /** The first term of the SMS and WiFi patterns spans one of its keywords. */
  lemma KeywordSpan(words: seq<string>, t: string, j: nat, c: Captures)
    requires j <= |t| && |words| == 3
    requires TermMatches(Term(Some(1), [Literal(words[0]), Literal(words[1]), Literal(words[2])], false), t, 0, j, c)
    ensures t[..j] == words[0] || t[..j] == words[1] || t[..j] == words[2]
  {
    var alts := [Literal(words[0]), Literal(words[1]), Literal(words[2])];
    var k :| 0 <= k < |alts| && Accepts(alts[k], t[0..j]);
    AcceptsLiteral(words[k], t[0..j]);
    assert t[0..j] == t[..j];
  }

  // ----- SMS -----

  /** The texts the country-code group `(\+?82[- ]?)` can capture. */
  predicate IsCountryCodeText(w: string) {
    w == "+82" || w == "+82-" || w == "+82 " || w == "82" || w == "82-" || w == "82 "
  }

  lemma CountryCodeWords(w: string)
    requires Accepts(CountryCode, w)
    ensures IsCountryCodeText(w)
  {
    var tail := CountryCode[1..];
    assert CountryCode == [Maybe(Exactly('+'))] + tail;
    AcceptsMaybe(Exactly('+'), tail, w);
    if w != [] && w[0] == '+' && Accepts(tail, w[1..]) {
      var v := w[1..];
      CountryCodeTailWords(v);
      assert w == ['+'] + v;
      if v == "82" {
        assert w == "+82";
      } else if v == "82-" {
        assert w == "+82-";
      } else {
        assert w == "+82 ";
      }
    } else {
      CountryCodeTailWords(w);
    }
  }

  lemma CountryCodeTailWords(v: string)
    requires Accepts(CountryCode[1..], v)
    ensures v == "82" || v == "82-" || v == "82 "
  {
    assert CountryCode[1..] == [One(Exactly('8'))] + [One(Exactly('2')), Separator];
    AcceptsOne(Exactly('8'), [One(Exactly('2')), Separator], v);
    var v1 := v[1..];
    assert [One(Exactly('2')), Separator] == [One(Exactly('2'))] + [Separator];
    AcceptsOne(Exactly('2'), [Separator], v1);
    var v2 := v1[1..];
    assert [Separator] == [Maybe(OneOf(['-', ' ']))] + [];
    AcceptsMaybe(OneOf(['-', ' ']), [], v2);
    assert v == [v[0], v1[0]] + v2;
    if v2 != [] {
      assert v2 == [v2[0]];
      assert v2[0] == '-' || v2[0] == ' ';
    }
  }

  /** Group 2 of an SMS match is the optional country code only: it is empty
      or one of six short texts, never the subscriber number. */
  lemma SmsCapture(t: string)
    requires Test(SmsPattern, t)
    ensures var g := Captured(t, Exec(SmsPattern, t).value, 2); g == [] || IsCountryCodeText(g)
    ensures Count(t, Digit) >= 9
  {
    PatternsWellFormed();
    ExecSpans(SmsPattern, t);
    var c := Exec(SmsPattern, t).value;
    var b, pos :| 0 <= b < |SmsPattern| && Spans(SmsPattern[b], t, c, pos) && pos[0] == 0;
    var br := SmsPattern[0];
    assert b == 0 && |br| == 4 && pos[4] == |t|;
    assert SpanAt(br, t, c, pos, 2) && SpanAt(br, t, c, pos, 3);
    if Accepts(CountryCode, t[pos[2]..pos[3]]) && 2 in c && c[2] == Span(pos[2], pos[3]) {
      CountryCodeWords(t[pos[2]..pos[3]]);
    }
    assert t[pos[3]..pos[4]] == t[pos[3]..];
    assert Accepts(MobileNumber, t[pos[3]..]);
    AcceptsMinCount(MobileNumber, t[pos[3]..], Digit);
    MobileNumberDigits();
    CountSuffix(t, pos[3], Digit);
  }

  /** A trailing separator after a number without separators is dropped. */
  lemma {:induction false} StripTrailingSeparator(code: string, c: char)
    requires NoSeparators(code) && IsPhoneSeparator(c)
    ensures StripSeparators(code + [c]) == code
  {
    if code == [] {
      assert code + [c] == [c] && [c][1..] == [];
    } else {
      var rest := code[1..];
      assert NoSeparators(rest);
      StripTrailingSeparator(rest, c);
      assert (code + [c])[0] == code[0] && (code + [c])[1..] == rest + [c];
      assert code == [code[0]] + rest;
    }
  }

  lemma StripCountryCodes()
    ensures StripSeparators("+82") == "+82" && StripSeparators("+82-") == "+82" && StripSeparators("+82 ") == "+82"
    ensures StripSeparators("82") == "82" && StripSeparators("82-") == "82" && StripSeparators("82 ") == "82"
  {
    assert NoSeparators("+82") && NoSeparators("82");
    StripTrailingSeparator("+82", '-');
    StripTrailingSeparator("+82", ' ');
    StripTrailingSeparator("82", '-');
    StripTrailingSeparator("82", ' ');
    assert "+82" + ['-'] == "+82-" && "+82" + [' '] == "+82 ";
    assert "82" + ['-'] == "82-" && "82" + [' '] == "82 ";
  }


  lemma CountryCodeNormalised(g: string)
    requires g == [] || IsCountryCodeText(g)
    ensures NormalizePhoneNumber(g) == "" || NormalizePhoneNumber(g) == "0" || NormalizePhoneNumber(g) == "82"
  {
    StripCountryCodes();
    if g != [] {
      var s := StripSeparators(g);
      if s == "+82" {
        assert s[3..] == [];
        assert DropCountryCode(s) == "0";
      } else {
        assert DropCountryCode(s) == "82";
      }
    }
  }

  /** The SMS payload never carries the number: group 2 captures at most the
      country code, so the payload is one of three fixed texts although the
      input holds at least nine digits. */
  lemma SmsPayloadDropsNumber(input: string)
    requires FormatDataType(input).kind == Sms
    ensures var payload := FormatDataType(input).formatted;
            payload == "sms:" || payload == "sms:0" || payload == "sms:82"
    ensures Count(Trim(input), Digit) >= 9
  {
    var t := Trim(input);
    FormatDispatch(input);
    SmsCapture(t);
    SmsFormatted(input, t);
  }

  /** The number the SMS branch passes on is one of three short texts. */
  lemma SmsNumberNormalised(t: string)
    requires Test(SmsPattern, t)
    ensures var n := NormalizePhoneNumber(Captured(t, Exec(SmsPattern, t).value, 2));
            n == "" || n == "0" || n == "82"
  {
    SmsCapture(t);
    CountryCodeNormalised(Captured(t, Exec(SmsPattern, t).value, 2));
  }

  lemma SmsFormatted(input: string, t: string)
    requires Test(SmsPattern, t)
    ensures var payload := FormatSms(input, t).formatted;
            payload == "sms:" || payload == "sms:0" || payload == "sms:82"
  {
    var n := NormalizePhoneNumber(Captured(t, Exec(SmsPattern, t).value, 2));
    SmsNumberNormalised(t);
    assert FormatSms(input, t).formatted == "sms:" + n;
    if n == "" {
      assert "sms:" + n == "sms:";
    } else if n == "0" {
      assert "sms:" + n == "sms:0";
    } else {
      assert "sms:" + n == "sms:82";
    }
  }

  /** The evidently intended SMS pattern: group 2 spans the whole number,
      country code included, `^(sms|SMS|문자)[:：]\s*((?:\+?82[- ]?)?0?1[0-9][- ]?\d{3,4}[- ]?\d{4})$`. */
  const IntendedSmsPattern: Pattern := [
    [Term(Some(1), [Literal("sms"), Literal("SMS"), Literal("문자")], false),
     Plain(ColonThenSpace),
     Term(Some(2), [CountryCode + MobileNumber, MobileNumber], false)]
  ]

  /** The SMS result built from the intended pattern. */
  function FormatSmsIntended(input: string, trimmed: string): FormatResult
    requires Test(IntendedSmsPattern, trimmed)
  {
    var phoneNumber := NormalizePhoneNumber(Captured(trimmed, Exec(IntendedSmsPattern, trimmed).value, 2));
    FormatResult(Sms, input, "sms:" + phoneNumber, Describe(Sms, phoneNumber))
  }

  /** With the intended pattern the payload is the whole number, normalised:
      group 2 is everything after the keyword, the colon and the whitespace
      after it, holds at least nine digits, and at least eight of them reach
      the payload. */
  lemma IntendedSmsKeepsNumber(input: string, t: string)
    requires Test(IntendedSmsPattern, t)
    ensures var number := Captured(t, Exec(IntendedSmsPattern, t).value, 2);
            && number == t[|t| - |number|..]
            && (exists p1, p2 :: 0 < p1 < p2 <= |t| && IsSmsKeyword(t[..p1]) && IsColonThenSpace(t[p1..p2]) &&
                                 number == t[p2..] && IsSmsNumber(number))
            && Count(number, Digit) >= 9
            && FormatSmsIntended(input, t).formatted == "sms:" + DropCountryCode(StripSeparators(number))
            && Count(DropCountryCode(StripSeparators(number)), Digit) >= 8
  {
    var br := IntendedSmsPattern[0];
    assert GroupsAscending(br[2..], 1);
    GroupsAscendingWellFormed(br, 0);
    ExecSpans(IntendedSmsPattern, t);
    var c := Exec(IntendedSmsPattern, t).value;
    var b, pos :| 0 <= b < |IntendedSmsPattern| && Spans(IntendedSmsPattern[b], t, c, pos) && pos[0] == 0;
    assert b == 0;
    IntendedSmsSpans(t, c, pos);
    var number := t[pos[2]..];
    SmsNumberDigits(number);
    NormalizeLongNumber(number);
  }

  /** What the intended pattern's group 2 may hold: a mobile number, with or
      without a country code in front. */
  predicate IsSmsNumber(number: string) {
    Accepts(CountryCode + MobileNumber, number) || Accepts(MobileNumber, number)
  }

  /** The spans of an intended SMS match: keyword, separator, then the number to the end. */
  lemma IntendedSmsSpans(t: string, c: Captures, pos: seq<nat>)
    requires Spans(IntendedSmsPattern[0], t, c, pos) && pos[0] == 0
    ensures |pos| == 4 && 0 < pos[1] < pos[2] <= |t|
    ensures IsSmsKeyword(t[..pos[1]]) && IsColonThenSpace(t[pos[1]..pos[2]])
    ensures Captured(t, c, 2) == t[pos[2]..] && IsSmsNumber(t[pos[2]..])
  {
    var br := IntendedSmsPattern[0];
    assert |br| == 3 && pos[3] == |t|;
    assert SpanAt(br, t, c, pos, 0) && SpanAt(br, t, c, pos, 1) && SpanAt(br, t, c, pos, 2);
    KeywordSpan(["sms", "SMS", "문자"], t, pos[1], c);
    assert Accepts(ColonThenSpace, t[pos[1]..pos[2]]);
    ColonThenSpaceWords(t[pos[1]..pos[2]]);
    assert t[pos[2]..pos[3]] == t[pos[2]..];
  }

  /** A mobile number, with or without country code, holds at least nine digits. */
  lemma SmsNumberDigits(number: string)
    requires IsSmsNumber(number)
    ensures Count(number, Digit) >= 9
  {
    MobileNumberDigits();
    if Accepts(CountryCode + MobileNumber, number) {
      MinCountConcat(CountryCode, MobileNumber, Digit);
      AcceptsMinCount(CountryCode + MobileNumber, number, Digit);
    } else {
      AcceptsMinCount(MobileNumber, number, Digit);
    }
  }

  // ----- WiFi -----

  /** `t` read as keyword, separator, network, separator, password, cut at
      `p1`..`p4`: the network is a non-empty run without ASCII colons (it may
      hold fullwidth ones) and the password the non-empty rest of the line. */
  predicate WifiSplit(t: string, p1: int, p2: int, p3: int, p4: int) {
    && 0 < p1 < p2 < p3 < p4 < |t|
    && IsWifiKeyword(t[..p1])
    && IsColonThenSpace(t[p1..p2])
    && ':' !in t[p2..p3]
    && IsColonThenSpace(t[p3..p4])
    && forall k :: p4 <= k < |t| ==> !IsLineTerminator(t[k])
  }

  /** Group 2 of a WiFi match is the network and group 3 the password of a
      split of the whole input into keyword, separator, network, separator
      and password. */
  lemma WifiCaptures(t: string)
    requires Test(WifiPattern, t)
    ensures var caps := Exec(WifiPattern, t).value;
            var network, password := Captured(t, caps, 2), Captured(t, caps, 3);
            && (exists p1, p2, p3, p4 :: WifiSplit(t, p1, p2, p3, p4) && network == t[p2..p3] && password == t[p4..])
            && network != [] && ':' !in network
            && password != [] && password == t[|t| - |password|..]
            && (forall k :: 0 <= k < |password| ==> !IsLineTerminator(password[k]))
  {
    PatternsWellFormed();
    ExecSpans(WifiPattern, t);
    var c := Exec(WifiPattern, t).value;
    var b, pos :| 0 <= b < |WifiPattern| && Spans(WifiPattern[b], t, c, pos) && pos[0] == 0;
    var br := WifiPattern[0];
    assert b == 0 && |br| == 5 && pos[5] == |t|;
    assert SpanAt(br, t, c, pos, 2) && SpanAt(br, t, c, pos, 4);
    WifiSpansSplit(t, c, pos);
    var password := t[pos[4]..];
    forall k | 0 <= k < |password| ensures !IsLineTerminator(password[k]) {
      assert password[k] == t[pos[4] + k];
    }
  }

  /** The keyword and the two separators of a WiFi match. */
  lemma WifiSeparators(t: string, c: Captures, pos: seq<nat>)
    requires Spans(WifiPattern[0], t, c, pos) && pos[0] == 0
    ensures |pos| == 6 && 0 < pos[1] < pos[2] <= pos[3] < pos[4] <= |t|
    ensures IsWifiKeyword(t[..pos[1]])
    ensures IsColonThenSpace(t[pos[1]..pos[2]]) && IsColonThenSpace(t[pos[3]..pos[4]])
  {
    var br := WifiPattern[0];
    assert |br| == 5;
    assert SpanAt(br, t, c, pos, 0) && SpanAt(br, t, c, pos, 1) && SpanAt(br, t, c, pos, 2);
    assert SpanAt(br, t, c, pos, 3) && SpanAt(br, t, c, pos, 4);
    KeywordSpan(["wifi", "WiFi", "WIFI"], t, pos[1], c);
    assert Accepts(ColonThenSpace, t[pos[1]..pos[2]]) && Accepts(ColonThenSpace, t[pos[3]..pos[4]]);
    ColonThenSpaceWords(t[pos[1]..pos[2]]);
    ColonThenSpaceWords(t[pos[3]..pos[4]]);
  }

  /** The spans of a WiFi match cut the input into a split. */
  lemma WifiSpansSplit(t: string, c: Captures, pos: seq<nat>)
    requires Spans(WifiPattern[0], t, c, pos) && pos[0] == 0
    ensures |pos| == 6 && WifiSplit(t, pos[1], pos[2], pos[3], pos[4])
  {
    var br := WifiPattern[0];
    assert |br| == 5 && pos[5] == |t|;
    WifiSeparators(t, c, pos);
    assert SpanAt(br, t, c, pos, 2) && SpanAt(br, t, c, pos, 4);
    var network, password := t[pos[2]..pos[3]], t[pos[4]..pos[5]];
    var netPieces, passPieces := [Piece(NotColon, 1, Unbounded)], [Piece(NotLineTerminator, 1, Unbounded)];
    assert Accepts(netPieces, network) && Accepts(passPieces, password);
    AcceptsMinCount(netPieces, network, NotColon);
    AcceptsInside(netPieces, network, NotColon);
    forall k | 0 <= k < |network| ensures network[k] != ':' {
      assert NotColon.Has(network[k]);
    }
    AcceptsMinCount(passPieces, password, NotLineTerminator);
    AcceptsInside(passPieces, password, NotLineTerminator);
    forall k | pos[4] <= k < |t| ensures !IsLineTerminator(t[k]) {
      assert t[k] == password[k - pos[4]];
    }
  }


  /** The WiFi payload names the network and the password of a split of the
      input, each trimmed; the network holds no ASCII colon and the password
      is not blank, because it runs to the end of the trimmed input. */
  lemma WifiPayload(input: string, t: string)
    requires Test(WifiPattern, t) && t != [] && !IsWhitespace(t[|t| - 1])
    ensures exists p1, p2, p3, p4 :: && WifiSplit(t, p1, p2, p3, p4)
                                     && FormatWifi(input, t).formatted ==
                                        "WIFI:T:WPA;S:" + Trim(t[p2..p3]) + ";P:" + Trim(t[p4..]) + ";;"
                                     && ':' !in Trim(t[p2..p3])
                                     && Trim(t[p4..]) != []
  {
    WifiCaptures(t);
    var caps := Exec(WifiPattern, t).value;
    var network, password := Captured(t, caps, 2), Captured(t, caps, 3);
    var p1, p2, p3, p4 :| WifiSplit(t, p1, p2, p3, p4) && network == t[p2..p3] && password == t[p4..];
    TrimKeepsOut(network, ':');
    assert password[|password| - 1] == t[|t| - 1];
    TrimNonEmpty(password);
  }

  // ----- Coordinates -----

  /** The coordinate payload is the text before and the text after the only comma, each trimmed. */
  lemma GeoPayload(input: string, t: string)
    requires Test(GeoPattern, t)
    ensures exists k :: 0 <= k < |t| && t[k] == ',' && ',' !in t[..k] && ',' !in t[k + 1..]
                        && FormatGeo(input, t).formatted == "geo:" + Trim(t[..k]) + "," + Trim(t[k + 1..])
  {
    GeoHasOneComma(t);
    var parts := Split(t, ',');
    assert Join(parts, ',') == parts[0] + [','] + parts[1];
    var k := |parts[0]|;
    assert t[..k] == parts[0] && t[k] == ',' && t[k + 1..] == parts[1];
  }

  // ----- URLs -----

  /** A URL's payload is the trimmed input, with `https://` in front unless it already has a scheme. */
  lemma UrlPayload(input: string)
    requires FormatDataType(input).kind == Url
    ensures var t := Trim(input);
            && HasScheme(FormatDataType(input).formatted)
            && (HasScheme(t) ==> FormatDataType(input).formatted == t)
            && (!HasScheme(t) ==> FormatDataType(input).formatted == "https://" + t)
  {
    FormatDispatch(input);
  }

  // ----- Precedence -----

  /** The kinds with a pattern, in the order they are tried. */
  const Detectors: seq<DataType> := [Phone, Email, Sms, Wifi, Geo, Url]

  function PatternOf(kind: DataType): Pattern {
    match kind
    case Phone => PhonePattern
    case Email => EmailPattern
    case Sms => SmsPattern
    case Wifi => WifiPattern
    case Geo => GeoPattern
    case Url => UrlPattern
    case Text => []
  }

  /** The first kind of `kinds` whose pattern accepts `trimmed`, or text. */
  function FirstMatch(kinds: seq<DataType>, trimmed: string): (r: DataType)
    ensures r == Text || (r in kinds && Test(PatternOf(r), trimmed))
  {
    if kinds == [] then Text
    else if Test(PatternOf(kinds[0]), trimmed) then kinds[0]
    else FirstMatch(kinds[1..], trimmed)
  }

  /** No kind of `kinds` has a pattern that accepts `trimmed`. */
  predicate NoneAccepts(kinds: seq<DataType>, trimmed: string) {
    forall k :: 0 <= k < |kinds| ==> !Test(PatternOf(kinds[k]), trimmed)
  }

  /** `FirstMatch` is the earliest accepting kind: every kind before it is
      rejected, and it falls back to text exactly when every kind is rejected. */
  lemma {:induction false} FirstMatchIsEarliest(kinds: seq<DataType>, trimmed: string)
    requires Text !in kinds
    ensures var r := FirstMatch(kinds, trimmed);
            && (r == Text <==> NoneAccepts(kinds, trimmed))
            && (r != Text ==> exists i :: 0 <= i < |kinds| && kinds[i] == r && Test(PatternOf(r), trimmed) &&
                                          NoneAccepts(kinds[..i], trimmed))
  {
    if kinds != [] && !Test(PatternOf(kinds[0]), trimmed) {
      var rest := kinds[1..];
      FirstMatchIsEarliest(rest, trimmed);
      var r := FirstMatch(rest, trimmed);
      assert FirstMatch(kinds, trimmed) == r;
      if r != Text {
        var i :| 0 <= i < |rest| && rest[i] == r && Test(PatternOf(r), trimmed) && NoneAccepts(rest[..i], trimmed);
        var before := kinds[..i + 1];
        forall k | 0 <= k < |before| ensures !Test(PatternOf(before[k]), trimmed) {
          if k > 0 {
            assert before[k] == rest[..i][k - 1];
          }
        }
        assert kinds[i + 1] == r && NoneAccepts(before, trimmed);
        assert !NoneAccepts(kinds, trimmed) by {
          assert Test(PatternOf(kinds[i + 1]), trimmed);
        }
      } else {
        forall k | 0 <= k < |kinds| ensures !Test(PatternOf(kinds[k]), trimmed) {
          if k > 0 {
            assert kinds[k] == rest[k - 1];
          }
        }
      }
    } else if kinds != [] {
      assert kinds[0] != Text && kinds[..0] == [];
      assert !NoneAccepts(kinds, trimmed) by {
        assert Test(PatternOf(kinds[0]), trimmed);
      }
    }
  }

  /** The kind as a table lookup: the first detector whose pattern accepts the
      trimmed input, text when none does or the input is blank. */
  function DetectKind(trimmed: string): DataType {
    if trimmed == [] then Text else FirstMatch(Detectors, trimmed)
  }

  /** The kind `FormatDataType` gives, branch by branch. */
  lemma FormatKindChain(input: string)
    ensures var t := Trim(input);
            FormatDataType(input).kind ==
              if t == [] then Text
              else if Test(PhonePattern, t) then Phone
              else if Test(EmailPattern, t) then Email
              else if Test(SmsPattern, t) then Sms
              else if Test(WifiPattern, t) then Wifi
              else if Test(GeoPattern, t) then Geo
              else if Test(UrlPattern, t) then Url
              else Text
  {
  }

  /** `FirstMatch` on a list of six kinds is the chain of six tests. */
  lemma FirstMatchOfSix(kinds: seq<DataType>, t: string)
    requires |kinds| == 6
    ensures FirstMatch(kinds, t) ==
              if Test(PatternOf(kinds[0]), t) then kinds[0]
              else if Test(PatternOf(kinds[1]), t) then kinds[1]
              else if Test(PatternOf(kinds[2]), t) then kinds[2]
              else if Test(PatternOf(kinds[3]), t) then kinds[3]
              else if Test(PatternOf(kinds[4]), t) then kinds[4]
              else if Test(PatternOf(kinds[5]), t) then kinds[5]
              else Text
  {
    var k1 := kinds[1..];
    var k2 := k1[1..];
    var k3 := k2[1..];
    var k4 := k3[1..];
    var k5 := k4[1..];
    assert k1[0] == kinds[1] && k2[0] == kinds[2] && k3[0] == kinds[3] && k4[0] == kinds[4] && k5[0] == kinds[5];
    assert FirstMatch(k5, t) == if Test(PatternOf(kinds[5]), t) then kinds[5] else FirstMatch(k5[1..], t);
    assert FirstMatch(k4, t) == if Test(PatternOf(kinds[4]), t) then kinds[4] else FirstMatch(k5, t);
    assert FirstMatch(k3, t) == if Test(PatternOf(kinds[3]), t) then kinds[3] else FirstMatch(k4, t);
    assert FirstMatch(k2, t) == if Test(PatternOf(kinds[2]), t) then kinds[2] else FirstMatch(k3, t);
    assert FirstMatch(k1, t) == if Test(PatternOf(kinds[1]), t) then kinds[1] else FirstMatch(k2, t);
    assert k5[1..] == [];
  }

  /** The classifier's chain of tests is the ordered table lookup. */
  lemma FormatKindIsFirstMatch(input: string)
    ensures FormatDataType(input).kind == DetectKind(Trim(input))
  {
    FormatKindChain(input);
    DetectKindChain(Trim(input));
  }

  /** The table lookup, written out as the chain of tests. */
  lemma DetectKindChain(t: string)
    ensures DetectKind(t) ==
              if t == [] then Text
              else if Test(PhonePattern, t) then Phone
              else if Test(EmailPattern, t) then Email
              else if Test(SmsPattern, t) then Sms
              else if Test(WifiPattern, t) then Wifi
              else if Test(GeoPattern, t) then Geo
              else if Test(UrlPattern, t) then Url
              else Text
  {
    var d := Detectors;
    FirstMatchOfSix(d, t);
    assert d[0] == Phone && d[1] == Email && d[2] == Sms && d[3] == Wifi && d[4] == Geo && d[5] == Url;
    assert PatternOf(Phone) == PhonePattern && PatternOf(Email) == EmailPattern && PatternOf(Sms) == SmsPattern;
    assert PatternOf(Wifi) == WifiPattern && PatternOf(Geo) == GeoPattern && PatternOf(Url) == UrlPattern;
  }


}
