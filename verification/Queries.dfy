/** Taking the key out of a raw query string: splitting, `+`, percent-decoding as
    section 2.1 of RFC 3986 defines it. */
module Queries {
  import opened Basics

  const AMP: Byte := 0x26
  const EQUALS: Byte := 0x3D
  const PERCENT: Byte := 0x25
  const PLUS: Byte := 0x2B
  const SPACE: Byte := 0x20
  const K: Bytes := [0x6B]

  /** `split('&')`: one piece more than there are separators. */
  function Split(q: Bytes): (pieces: seq<Bytes>)
    ensures |pieces| > 0
  {
    if q == [] then [[]]
    else
      var rest := Split(q[1..]);
      if q[0] == AMP then [[]] + rest else [[q[0]] + rest[0]] + rest[1..]
  }

  /** `split_once('=')`, with the whole pair as the name when there is no `=`. */
  function SplitOnce(pair: Bytes): (Bytes, Bytes) {
    if pair == [] then ([], [])
    else if pair[0] == EQUALS then ([], pair[1..])
    else
      var (name, value) := SplitOnce(pair[1..]);
      ([pair[0]] + name, value)
  }

  function PlusToSpace(s: Bytes): Bytes {
    if s == [] then [] else [if s[0] == PLUS then SPACE else s[0]] + PlusToSpace(s[1..])
  }

  function HexValue(b: Byte): Option<nat> {
    if 0x30 <= b <= 0x39 then Some(b - 0x30)
    else if 0x41 <= b <= 0x46 then Some(b - 0x41 + 10)
    else if 0x61 <= b <= 0x66 then Some(b - 0x61 + 10)
    else None
  }

  predicate IsEscape(s: Bytes) {
    |s| >= 3 && s[0] == PERCENT && HexValue(s[1]).Some? && HexValue(s[2]).Some?
  }

  /** A percent sign that two hex digits do not follow stands for itself. */
  function PercentDecode(s: Bytes): Bytes {
    if s == [] then []
    else if IsEscape(s) then
      var hi, lo := HexValue(s[1]).value, HexValue(s[2]).value;
      [(16 * hi + lo) % 0x100] + PercentDecode(s[3..])
    else [s[0]] + PercentDecode(s[1..])
  }

  function DecodeValue(value: Bytes): Bytes {
    PercentDecode(PlusToSpace(value))
  }

  function KeyFromPieces(pieces: seq<Bytes>): Option<Bytes> {
    if pieces == [] then None
    else
      var (name, value) := SplitOnce(pieces[0]);
      if name == K then Some(DecodeValue(value)) else KeyFromPieces(pieces[1..])
  }

  function KeyFromQuery(q: Option<Bytes>): Option<Bytes> {
    match q
    case None => None
    case Some(s) => KeyFromPieces(Split(s))
  }

  // ---- Parameters and query strings are the same thing ----

  function Join(pieces: seq<Bytes>): Bytes
    requires pieces != []
  {
    if |pieces| == 1 then pieces[0] else pieces[0] + [AMP] + Join(pieces[1..])
  }

  ghost predicate Plain(pieces: seq<Bytes>) {
    forall i | 0 <= i < |pieces| :: AMP !in pieces[i]
  }

  lemma {:induction false} SplitPieceThenRest(piece: Bytes, rest: Bytes)
    requires AMP !in piece
    ensures Split(piece + [AMP] + rest) == [piece] + Split(rest)
    decreases |piece|
  {
    var q := piece + [AMP] + rest;
    if piece == [] {
      assert q[1..] == rest;
    } else {
      assert q[1..] == piece[1..] + [AMP] + rest;
      SplitPieceThenRest(piece[1..], rest);
      assert [q[0]] + piece[1..] == piece;
    }
  }

  lemma {:induction false} SplitOnePiece(piece: Bytes)
    requires AMP !in piece
    ensures Split(piece) == [piece]
    decreases |piece|
  {
    if piece != [] {
      SplitOnePiece(piece[1..]);
      assert [piece[0]] + piece[1..] == piece;
    }
  }

  /** Splitting recovers the parameters a query was joined from. */
  lemma {:induction false} SplitOfJoin(pieces: seq<Bytes>)
    requires pieces != [] && Plain(pieces)
    ensures Split(Join(pieces)) == pieces
    decreases |pieces|
  {
    if |pieces| == 1 {
      SplitOnePiece(pieces[0]);
    } else {
      SplitOfJoin(pieces[1..]);
      SplitPieceThenRest(pieces[0], Join(pieces[1..]));
    }
  }

  /** Every query string is the join of the parameters it splits into. */
  lemma {:induction false} JoinOfSplit(q: Bytes)
    ensures Plain(Split(q)) && Join(Split(q)) == q
    decreases |q|
  {
    if q != [] {
      JoinOfSplit(q[1..]);
      var rest := Split(q[1..]);
      if q[0] == AMP {
        assert Split(q)[1..] == rest;
        assert [] + [AMP] + q[1..] == q;
      } else {
        JoinPrepend(q[0], rest);
        assert [q[0]] + q[1..] == q;
      }
    }
  }

  lemma JoinPrepend(b: Byte, pieces: seq<Bytes>)
    requires pieces != []
    ensures Join([[b] + pieces[0]] + pieces[1..]) == [b] + Join(pieces)
  {
    var longer := [[b] + pieces[0]] + pieces[1..];
    if |pieces| > 1 {
      assert longer[1..] == pieces[1..];
      assert [b] + pieces[0] + [AMP] + Join(pieces[1..]) == [b] + (pieces[0] + [AMP] + Join(pieces[1..]));
    }
  }

  // ---- Which parameter is used ----

  predicate NamedK(piece: Bytes) {
    SplitOnce(piece).0 == K
  }

  /** The first `=` splits; without one the whole pair is the name. */
  lemma {:induction false} SplitsAtFirstEquals(name: Bytes, value: Bytes)
    requires EQUALS !in name
    ensures SplitOnce(name + [EQUALS] + value) == (name, value)
    ensures SplitOnce(name) == (name, [])
    decreases |name|
  {
    var pair := name + [EQUALS] + value;
    if name == [] {
      assert pair[1..] == value;
    } else {
      assert pair[1..] == name[1..] + [EQUALS] + value;
      SplitsAtFirstEquals(name[1..], value);
      assert [name[0]] + name[1..] == name;
    }
  }

  /** A parameter is named `k` exactly when it is `k` or begins with `k=`. */
  lemma NamedKExactly(piece: Bytes)
    ensures NamedK(piece) <==> piece == ['k' as int] || ['k' as int, '=' as int] <= piece
  {
    if piece != [] && piece[0] != EQUALS {
      var rest := piece[1..];
      var name := SplitOnce(rest).0;
      assert SplitOnce(piece).0 == [piece[0]] + name;
      if NamedK(piece) {
        assert ([piece[0]] + name)[0] == K[0] && |[piece[0]] + name| == 1;
        assert name == [];
      }
      if rest != [] {
        assert name == [] <==> rest[0] == EQUALS;
        if rest[0] == EQUALS && piece[0] == K[0] {
          assert piece[..2] == K + [EQUALS];
          assert [piece[0]] + name == K;
        }
      } else {
        assert piece == [piece[0]] && [piece[0]] + name == piece;
      }
    }
  }

  lemma {:induction false} FirstNamedPieceWins(pieces: seq<Bytes>, i: nat)
    requires i < |pieces| && NamedK(pieces[i])
    requires forall j | 0 <= j < i :: !NamedK(pieces[j])
    ensures KeyFromPieces(pieces) == Some(DecodeValue(SplitOnce(pieces[i]).1))
    decreases i
  {
    if i > 0 {
      assert !NamedK(pieces[0]);
      FirstNamedPieceWins(pieces[1..], i - 1);
    }
  }

  lemma {:induction false} NoNamedPiece(pieces: seq<Bytes>)
    ensures KeyFromPieces(pieces).None? <==> forall i | 0 <= i < |pieces| :: !NamedK(pieces[i])
    decreases |pieces|
  {
    if pieces != [] {
      NoNamedPiece(pieces[1..]);
      if forall i | 0 <= i < |pieces[1..]| :: !NamedK(pieces[1..][i]) {
        forall i | 1 <= i < |pieces|
          ensures !NamedK(pieces[i])
        {
          assert pieces[i] == pieces[1..][i - 1];
        }
      } else {
        var i :| 0 <= i < |pieces[1..]| && NamedK(pieces[1..][i]);
        assert NamedK(pieces[i + 1]);
      }
    }
  }

  // ---- Encodings of a key ----

  /** How one byte of the key is written. */
  datatype Form = Literal | Escaped(upperHi: bool, upperLo: bool) | PlusSign

  function HexDigit(n: nat, upper: bool): Byte
    requires n < 16
  {
    (if upper then "0123456789ABCDEF" else "0123456789abcdef")[n] as int
  }

  predicate Allowed(b: Byte, form: Form) {
    match form
    case Literal => b < 0x80 && b as char !in "%+& "
    case Escaped(_, _) => true
    case PlusSign => b == ' ' as int
  }

  function Written(b: Byte, form: Form): Bytes {
    match form
    case Literal => [b]
    case Escaped(upperHi, upperLo) => ['%' as int, HexDigit(b / 16, upperHi), HexDigit(b % 16, upperLo)]
    case PlusSign => ['+' as int]
  }

  ghost predicate AllAllowed(key: Bytes, forms: seq<Form>) {
    |forms| == |key| && forall i | 0 <= i < |key| :: Allowed(key[i], forms[i])
  }

  function Encoded(key: Bytes, forms: seq<Form>): Bytes
    requires |forms| == |key|
  {
    if key == [] then [] else Written(key[0], forms[0]) + Encoded(key[1..], forms[1..])
  }

  lemma {:induction false} PlusToSpaceConcat(a: Bytes, b: Bytes)
    ensures PlusToSpace(a + b) == PlusToSpace(a) + PlusToSpace(b)
    decreases |a|
  {
    if a == [] {
      assert a + b == b;
    } else {
      PlusToSpaceConcat(a[1..], b);
      assert (a + b)[1..] == a[1..] + b;
    }
  }

  lemma HexRoundTrip(n: nat, upper: bool)
    requires n < 16
    ensures HexValue(HexDigit(n, upper)) == Some(n) && HexDigit(n, upper) != PLUS && HexDigit(n, upper) != AMP
  {
  }

  lemma PlusToSpaceThree(a: Byte, b: Byte, c: Byte)
    requires a != PLUS && b != PLUS && c != PLUS
    ensures PlusToSpace([a, b, c]) == [a, b, c]
  {
    var s, t, u: Bytes := [a, b, c], [b, c], [c];
    assert s[1..] == t && t[1..] == u && u[1..] == [];
    assert PlusToSpace(u) == [c];
    assert PlusToSpace(t) == [b] + [c];
  }

  lemma PlusToSpaceOne(b: Byte)
    ensures PlusToSpace([b]) == [if b == PLUS then SPACE else b]
  {
    assert [b][1..] == [];
  }

  lemma PlainDecodes(b: Byte, rest: Bytes)
    requires b != PERCENT
    ensures PercentDecode([b] + rest) == [b] + PercentDecode(rest)
  {
    assert ([b] + rest)[1..] == rest;
  }

  lemma EscapeDecodes(hi: Byte, lo: Byte, rest: Bytes)
    requires HexValue(hi).Some? && HexValue(lo).Some?
    ensures PercentDecode([PERCENT, hi, lo] + rest)
            == [16 * HexValue(hi).value + HexValue(lo).value] + PercentDecode(rest)
  {
    var s := [PERCENT, hi, lo] + rest;
    assert s[3..] == rest;
  }

  /** The written form of one byte, ahead of anything, decodes to that byte. */
  lemma DecodeWritten(b: Byte, form: Form, rest: Bytes)
    requires Allowed(b, form)
    ensures PercentDecode(PlusToSpace(Written(b, form)) + rest) == [b] + PercentDecode(rest)
  {
    match form {
      case Escaped(upperHi, upperLo) =>
        HexRoundTrip(b / 16, upperHi);
        HexRoundTrip(b % 16, upperLo);
        var hi, lo := HexDigit(b / 16, upperHi), HexDigit(b % 16, upperLo);
        PlusToSpaceThree(PERCENT, hi, lo);
        EscapeDecodes(hi, lo, rest);
      case Literal =>
        PlusToSpaceOne(b);
        PlainDecodes(b, rest);
      case PlusSign =>
        PlusToSpaceOne(PLUS);
        PlainDecodes(SPACE, rest);
    }
  }

  lemma DecodeWrittenThen(b: Byte, form: Form, rest: Bytes)
    requires Allowed(b, form)
    ensures DecodeValue(Written(b, form) + rest) == [b] + DecodeValue(rest)
  {
    PlusToSpaceConcat(Written(b, form), rest);
    DecodeWritten(b, form, PlusToSpace(rest));
  }

  lemma EncodedSplits(key: Bytes, forms: seq<Form>, rest: Bytes)
    requires key != [] && |forms| == |key|
    ensures Encoded(key, forms) + rest == Written(key[0], forms[0]) + (Encoded(key[1..], forms[1..]) + rest)
  {
  }

  lemma Regroup(b: Byte, s: Bytes, t: Bytes)
    ensures [b] + (s + t) == [b] + s + t
  {
  }

  /** The written form of a key, ahead of anything, decodes to that key. */
  lemma {:induction false} DecodeEncodedThen(key: Bytes, forms: seq<Form>, rest: Bytes)
    requires AllAllowed(key, forms)
    ensures DecodeValue(Encoded(key, forms) + rest) == key + DecodeValue(rest)
    decreases |key|
  {
    if key == [] {
      assert Encoded(key, forms) + rest == rest;
      assert key + DecodeValue(rest) == DecodeValue(rest);
    } else {
      var tail := Encoded(key[1..], forms[1..]);
      EncodedSplits(key, forms, rest);
      DecodeEncodedThen(key[1..], forms[1..], rest);
      DecodeWrittenThen(key[0], forms[0], tail + rest);
      Regroup(key[0], key[1..], DecodeValue(rest));
      assert [key[0]] + key[1..] == key;
    }
  }

  lemma DecodeEncoded(key: Bytes, forms: seq<Form>)
    requires AllAllowed(key, forms)
    ensures DecodeValue(Encoded(key, forms)) == key
  {
    DecodeEncodedThen(key, forms, []);
    assert Encoded(key, forms) + [] == Encoded(key, forms);
  }

  predicate IsHexDigit(b: Byte) {
    '0' as int <= b <= '9' as int || 'A' as int <= b <= 'F' as int || 'a' as int <= b <= 'f' as int
  }

  /** After any written key, a percent sign that two hex digits do not follow is
      kept, and what follows it is decoded as if it stood alone. */
  lemma StrayPercentIsKept(key: Bytes, forms: seq<Form>, rest: Bytes)
    requires AllAllowed(key, forms)
    requires !(|rest| >= 2 && IsHexDigit(rest[0]) && IsHexDigit(rest[1]))
    ensures DecodeValue(Encoded(key, forms) + ['%' as int] + rest) == key + ['%' as int] + DecodeValue(rest)
  {
    var text: Bytes := ['%' as int] + rest;
    assert Encoded(key, forms) + ['%' as int] + rest == Encoded(key, forms) + text;
    DecodeEncodedThen(key, forms, text);
    assert text[1..] == rest;
    PlusToSpaceKeeps(text);
    assert PlusToSpace(text)[1..] == PlusToSpace(rest);
  }

  /** Only plus signs change, so no hex digit appears or disappears. */
  lemma {:induction false} PlusToSpaceKeeps(s: Bytes)
    ensures |PlusToSpace(s)| == |s|
    ensures forall i | 0 <= i < |s| :: PlusToSpace(s)[i] == if s[i] == PLUS then SPACE else s[i]
    decreases |s|
  {
    if s != [] {
      PlusToSpaceKeeps(s[1..]);
    }
  }

  lemma {:induction false} EncodedHasNoAmp(key: Bytes, forms: seq<Form>)
    requires AllAllowed(key, forms)
    ensures AMP !in Encoded(key, forms)
    decreases |key|
  {
    if key != [] {
      EncodedHasNoAmp(key[1..], forms[1..]);
      HexRoundTrip(key[0] / 16, true);
      HexRoundTrip(key[0] / 16, false);
      HexRoundTrip(key[0] % 16, true);
      HexRoundTrip(key[0] % 16, false);
      assert AMP !in Written(key[0], forms[0]);
    }
  }

  function KeyParam(value: Bytes): Bytes {
    ['k' as int, '=' as int] + value
  }

  lemma KeyParamSplits(value: Bytes)
    ensures SplitOnce(KeyParam(value)) == (K, value)
  {
    assert KeyParam(value) == K + [EQUALS] + value;
    SplitsAtFirstEquals(K, value);
  }

  lemma FirstKeyParamWins(before: seq<Bytes>, value: Bytes, after: seq<Bytes>)
    requires Plain(before) && Plain(after) && AMP !in value
    requires forall i | 0 <= i < |before| :: !NamedK(before[i])
    ensures KeyFromQuery(Some(Join(before + [KeyParam(value)] + after))) == Some(DecodeValue(value))
  {
    var param := KeyParam(value);
    var pieces := before + [param] + after;
    assert AMP !in param;
    SplitOfJoin(pieces);
    KeyParamSplits(value);
    FirstNamedPieceWins(pieces, |before|);
  }

  /** Every byte string can be asked for: written in any allowed encoding, among
      any other parameters of which no earlier one is named `k`. */
  lemma EveryKeyIsReachable(before: seq<Bytes>, key: Bytes, forms: seq<Form>, after: seq<Bytes>)
    requires Plain(before) && Plain(after) && AllAllowed(key, forms)
    requires forall i | 0 <= i < |before| :: !NamedK(before[i])
    ensures KeyFromQuery(Some(Join(before + [KeyParam(Encoded(key, forms))] + after))) == Some(key)
  {
    EncodedHasNoAmp(key, forms);
    DecodeEncoded(key, forms);
    FirstKeyParamWins(before, Encoded(key, forms), after);
  }

  /** No key comes back exactly when no parameter is named `k`; a bare `k` or an
      empty `k=` is the empty key. */
  lemma NoKeyExactly(params: seq<Bytes>)
    requires params != [] && Plain(params)
    ensures KeyFromQuery(Some(Join(params))).None? <==> forall i | 0 <= i < |params| :: !NamedK(params[i])
    ensures KeyFromQuery(None).None?
    ensures forall i | 0 <= i < |params| && params[i] in {K, KeyParam([])}
                       && (forall j | 0 <= j < i :: !NamedK(params[j])) ::
              KeyFromQuery(Some(Join(params))) == Some([])
  {
    SplitOfJoin(params);
    NoNamedPiece(params);
    forall i | 0 <= i < |params| && params[i] in {K, KeyParam([])} && (forall j | 0 <= j < i :: !NamedK(params[j]))
      ensures KeyFromQuery(Some(Join(params))) == Some([])
    {
      KeyParamSplits([]);
      assert K[1..] == [];
      FirstNamedPieceWins(params, i);
    }
  }
}
