/** UTF-8 validity (the grammar of section 4 of RFC 3629), and a validator that reports what the standard
    library's `from_utf8` documents: `valid_up_to` and `error_len`. */
module Utf8 {
  import opened Io

  // ---- The grammar ----

  predicate IsTail(b: Byte) { 0x80 <= b <= 0xBF }

  /** `UTF8-char`: one encoded code point. */
  predicate IsChar(c: seq<Byte>) {
    match |c|
    case 1 => c[0] <= 0x7F
    case 2 => 0xC2 <= c[0] <= 0xDF && IsTail(c[1])
    case 3 =>
      && IsTail(c[2])
      && ( || (c[0] == 0xE0 && 0xA0 <= c[1] <= 0xBF)
           || (0xE1 <= c[0] <= 0xEC && IsTail(c[1]))
           || (c[0] == 0xED && 0x80 <= c[1] <= 0x9F)
           || (0xEE <= c[0] <= 0xEF && IsTail(c[1])))
    case 4 =>
      && IsTail(c[2]) && IsTail(c[3])
      && ( || (c[0] == 0xF0 && 0x90 <= c[1] <= 0xBF)
           || (0xF1 <= c[0] <= 0xF3 && IsTail(c[1]))
           || (c[0] == 0xF4 && 0x80 <= c[1] <= 0x8F))
    case _ => false
  }

  // ---- The grammar against the purpose of UTF-8 (section 3 of RFC 3629) ----

  /** The number that the payload bits of one to four octets spell, six to an octet after the first. */
  function Payload(first: nat, tails: seq<Byte>): int
    decreases |tails|
  {
    if tails == [] then first else 64 * Payload(first, tails[..|tails| - 1]) + (tails[|tails| - 1] as int - 0x80)
  }

  /** The octet patterns 0xxxxxxx, 110xxxxx 10xxxxxx and so on, and the numbers that need as many octets. */
  predicate HasPattern(c: seq<Byte>, mark: nat, last: nat, least: nat, most: nat) {
    && c != [] && mark <= c[0] <= last && (forall i :: 1 <= i < |c| ==> IsTail(c[i]))
    && least <= Payload(c[0] - mark, c[1..]) <= most
  }

  predicate IsSurrogate(v: int) { 0xD800 <= v <= 0xDFFF }

  /** The grammar accepts exactly the shortest encodings of the Unicode scalar values. */
  lemma GrammarIsScalarValues(c: seq<Byte>)
    ensures IsChar(c)
       <==> || (|c| == 1 && HasPattern(c, 0, 0x7F, 0, 0x7F))
            || (|c| == 2 && HasPattern(c, 0xC0, 0xDF, 0x80, 0x7FF))
            || (|c| == 3 && HasPattern(c, 0xE0, 0xEF, 0x800, 0xFFFF) && !IsSurrogate(Payload(c[0] - 0xE0, c[1..])))
            || (|c| == 4 && HasPattern(c, 0xF0, 0xF7, 0x1_0000, 0x10_FFFF))
  {
    if 2 <= |c| <= 4 {
      var mark := if |c| == 2 then 0xC0 else if |c| == 3 then 0xE0 else 0xF0;
      if c[0] >= mark {
        var first: nat := c[0] - mark;
        assert c[1..][..|c| - 2] == c[1..|c| - 1];
        assert Payload(first, c[1..2]) == 64 * first + (c[1] as int - 0x80);
        if |c| == 3 {
          assert Payload(first, c[1..3]) == 64 * Payload(first, c[1..2]) + (c[2] as int - 0x80);
        } else if |c| == 4 {
          assert c[1..3][..1] == c[1..2] && c[1..4][..2] == c[1..3];
          assert Payload(first, c[1..3]) == 64 * Payload(first, c[1..2]) + (c[2] as int - 0x80);
          assert Payload(first, c[1..4]) == 64 * Payload(first, c[1..3]) + (c[3] as int - 0x80);
        }
      }
    }
  }

  // ---- Strings ----

  function Flatten(cs: seq<seq<Byte>>): seq<Byte> {
    if cs == [] then [] else cs[0] + Flatten(cs[1..])
  }

  ghost predicate AllChars(cs: seq<seq<Byte>>) {
    forall i :: 0 <= i < |cs| ==> IsChar(cs[i])
  }

  /** `UTF8-octets`: a concatenation of encoded code points. */
  ghost predicate ValidUtf8(s: seq<Byte>) {
    exists cs :: AllChars(cs) && Flatten(cs) == s
  }

  // ---- The validator ----

  /** How a non-empty byte string begins: with a whole code point, with `len` bytes that begin none,
      or with a code point cut off by the end. */
  datatype Lead = Whole(width: nat) | Wrong(len: nat) | Cut

  /** The length that a first byte announces, 0 for a byte that cannot be first. */
  function Width(b: Byte): nat {
    if b <= 0x7F then 1
    else if 0xC2 <= b <= 0xDF then 2
    else if 0xE0 <= b <= 0xEF then 3
    else if 0xF0 <= b <= 0xF4 then 4
    else 0
  }

  /** Whether `b1` may follow the first byte `b0` of a longer code point. */
  predicate SecondFits(b0: Byte, b1: Byte) {
    if b0 == 0xE0 then 0xA0 <= b1 <= 0xBF
    else if b0 == 0xED then 0x80 <= b1 <= 0x9F
    else if b0 == 0xF0 then 0x90 <= b1 <= 0xBF
    else if b0 == 0xF4 then 0x80 <= b1 <= 0x8F
    else IsTail(b1)
  }

  function LeadOf(s: seq<Byte>): (r: Lead)
    requires s != []
    ensures r.Whole? ==> 1 <= r.width <= 4 && r.width <= |s|
    ensures r.Wrong? ==> 1 <= r.len <= 3 && r.len <= |s|
    ensures r.Cut? ==> |s| <= 3
  {
    var w := Width(s[0]);
    if w == 0 then Wrong(1)
    else if w == 1 then Whole(1)
    else if |s| < 2 then Cut
    else if !SecondFits(s[0], s[1]) then Wrong(1)
    else if w == 2 then Whole(2)
    else if |s| < 3 then Cut
    else if !IsTail(s[2]) then Wrong(2)
    else if w == 3 then Whole(3)
    else if |s| < 4 then Cut
    else if !IsTail(s[3]) then Wrong(3)
    else Whole(4)
  }

  /** `Utf8Error`: the length of the valid prefix, and the length of the wrong bytes after it;
      no such length when the string ends inside a code point. */
  datatype Verdict = Good | Bad(validUpTo: nat, errorLen: Option<nat>)

  function FromUtf8(s: seq<Byte>): (v: Verdict)
    ensures v.Bad? ==> v.validUpTo < |s|
    ensures v.Bad? && v.errorLen.Some? ==> 1 <= v.errorLen.value <= 3 && v.validUpTo + v.errorLen.value <= |s|
    ensures v.Bad? && v.errorLen.None? ==> |s| - v.validUpTo <= 3
    decreases |s|
  {
    if s == [] then Good
    else
      match LeadOf(s)
      case Wrong(len) => Bad(0, Some(len))
      case Cut => Bad(0, None)
      case Whole(width) =>
        match FromUtf8(s[width..])
        case Good => Good
        case Bad(validUpTo, errorLen) => Bad(width + validUpTo, errorLen)
  }

  /** The length of the prefix that `from_utf8` accepts. */
  function ValidUpTo(s: seq<Byte>): (n: nat)
    ensures n <= |s|
  {
    match FromUtf8(s)
    case Good => |s|
    case Bad(validUpTo, _) => validUpTo
  }

  /** A definite error: not merely cut off by the end. */
  predicate Hopeless(s: seq<Byte>) {
    var v := FromUtf8(s);
    v.Bad? && v.errorLen.Some?
  }

  // ---- The validator against the grammar ----

  /** The validator sees a whole code point exactly where the grammar does. */
  lemma LeadIsChar(s: seq<Byte>, k: nat)
    requires s != [] && k <= |s|
    ensures LeadOf(s) == Whole(k) <==> IsChar(s[..k])
  {
  }

  /** Wrong first bytes stay wrong whatever follows. */
  lemma WrongLeadStaysWrong(s: seq<Byte>, t: seq<Byte>)
    requires s != [] && !LeadOf(s).Cut?
    ensures LeadOf(s + t) == LeadOf(s)
  {
  }

  /** A code point that is cut off can be completed. */
  lemma CutCanBeCompleted(s: seq<Byte>) returns (t: seq<Byte>)
    requires s != [] && LeadOf(s).Cut?
    ensures |t| <= 3 && IsChar(s + t)
  {
    var second: Byte := if s[0] == 0xE0 || s[0] == 0xF0 then 0xA0 else 0x80;
    var tails: seq<Byte> := [0x80, 0x80];
    var w := Width(s[0]);
    t := (if |s| == 1 then [second] else []) + (if |s| <= 2 then tails[..w - 2] else tails[..w - 3]);
    assert |s + t| == w;
  }

  lemma ConsChar(c: seq<Byte>, s: seq<Byte>)
    requires IsChar(c) && ValidUtf8(s)
    ensures ValidUtf8(c + s)
  {
    var cs :| AllChars(cs) && Flatten(cs) == s;
    var ds := [c] + cs;
    assert ds[1..] == cs;
    assert AllChars(ds) && Flatten(ds) == c + s;
  }

  lemma OneChar(c: seq<Byte>)
    requires IsChar(c)
    ensures ValidUtf8(c)
  {
    assert AllChars([c]) && Flatten([c]) == c;
  }

  /** A valid string starts with a code point, followed by a valid string. */
  lemma SplitChar(s: seq<Byte>) returns (k: nat)
    requires s != [] && ValidUtf8(s)
    ensures 1 <= k <= |s| && IsChar(s[..k]) && ValidUtf8(s[k..])
  {
    var cs :| AllChars(cs) && Flatten(cs) == s;
    k := |cs[0]|;
    assert IsChar(cs[0]);
    assert s[..k] == cs[0] && s[k..] == Flatten(cs[1..]);
    assert AllChars(cs[1..]);
  }

  /** `from_utf8` accepts exactly the valid strings. */
  lemma {:induction false} FromUtf8IsGrammar(s: seq<Byte>)
    ensures FromUtf8(s).Good? <==> ValidUtf8(s)
    decreases |s|
  {
    if s == [] {
      assert AllChars([]) && Flatten([]) == s;
    } else {
      var lead := LeadOf(s);
      if lead.Whole? {
        var k := lead.width;
        LeadIsChar(s, k);
        FromUtf8IsGrammar(s[k..]);
        if FromUtf8(s).Good? {
          ConsChar(s[..k], s[k..]);
          assert s == s[..k] + s[k..];
        }
      }
      if ValidUtf8(s) {
        var j := SplitChar(s);
        LeadIsChar(s, j);
      }
    }
  }

  /** What is reported about a string with a whole code point in front is what is reported about the rest. */
  lemma ValidAfterChar(s: seq<Byte>, k: nat)
    requires s != [] && LeadOf(s) == Whole(k)
    ensures ValidUtf8(s) <==> ValidUtf8(s[k..])
  {
    FromUtf8IsGrammar(s);
    FromUtf8IsGrammar(s[k..]);
  }

  /** `valid_up_to` is the longest valid prefix: it is valid, and every longer prefix is not. */
  lemma {:induction false} ValidUpToIsLongest(s: seq<Byte>)
    ensures ValidUtf8(s[..ValidUpTo(s)])
    ensures forall p :: ValidUpTo(s) < p <= |s| ==> !ValidUtf8(s[..p])
    decreases |s|
  {
    FromUtf8IsGrammar(s);
    FromUtf8IsGrammar([]);
    if FromUtf8(s).Good? {
      assert s[..|s|] == s;
    } else {
      var lead := LeadOf(s);
      if lead.Whole? {
        var k := lead.width;
        var t := s[k..];
        ValidUpToIsLongest(t);
        forall p | k <= p <= |s| ensures ValidUtf8(s[..p]) <==> ValidUtf8(t[..p - k]) {
          PrefixAfterChar(s, k, p);
        }
        forall p | 0 < p < k ensures !ValidUtf8(s[..p]) {
          if ValidUtf8(s[..p]) { FirstCharOfPrefix(s, p); }
        }
      } else {
        assert s[..0] == [];
        forall p | 0 < p <= |s| ensures !ValidUtf8(s[..p]) {
          if ValidUtf8(s[..p]) { FirstCharOfPrefix(s, p); }
        }
      }
    }
  }

  lemma PrefixAfterChar(s: seq<Byte>, k: nat, p: nat)
    requires s != [] && LeadOf(s) == Whole(k) && k <= p <= |s|
    ensures ValidUtf8(s[..p]) <==> ValidUtf8(s[k..][..p - k])
  {
    assert s[..p][..k] == s[..k];
    LeadIsChar(s, k);
    LeadIsChar(s[..p], k);
    ValidAfterChar(s[..p], k);
    assert s[..p][k..] == s[k..][..p - k];
  }

  lemma FirstCharOfPrefix(s: seq<Byte>, p: nat)
    requires 0 < p <= |s| && ValidUtf8(s[..p])
    ensures LeadOf(s).Whole? && LeadOf(s).width <= p
  {
    var j := SplitChar(s[..p]);
    assert s[..p][..j] == s[..j];
    LeadIsChar(s, j);
  }

  /** Early rejection is exact: a definite error is reported if and only if no continuation, of any length,
      makes the string valid. */
  lemma HopelessIsExact(s: seq<Byte>)
    ensures Hopeless(s) <==> forall t: seq<Byte> :: !ValidUtf8(s + t)
  {
    if Hopeless(s) {
      forall t: seq<Byte> ensures !ValidUtf8(s + t) { HopelessForever(s, t); }
    } else {
      var t := Completion(s);
    }
  }

  lemma {:induction false} HopelessForever(s: seq<Byte>, t: seq<Byte>)
    requires Hopeless(s)
    ensures !ValidUtf8(s + t)
    decreases |s|
  {
    WrongLeadStaysWrong(s, t);
    FromUtf8IsGrammar(s + t);
    if LeadOf(s).Whole? {
      var k := LeadOf(s).width;
      HopelessForever(s[k..], t);
      assert (s + t)[k..] == s[k..] + t;
      ValidAfterChar(s + t, k);
    }
  }

  /** Bytes that complete a string without a definite error; at most three of them. */
  lemma {:induction false} Completion(s: seq<Byte>) returns (t: seq<Byte>)
    requires !Hopeless(s)
    ensures |t| <= 3 && ValidUtf8(s + t)
    decreases |s|
  {
    if FromUtf8(s).Good? {
      t := [];
      FromUtf8IsGrammar(s);
      assert s + t == s;
    } else if LeadOf(s).Cut? {
      t := CutCanBeCompleted(s);
      OneChar(s + t);
    } else {
      var k := LeadOf(s).width;
      t := Completion(s[k..]);
      LeadIsChar(s, k);
      ConsChar(s[..k], s[k..] + t);
      assert s + t == s[..k] + (s[k..] + t);
    }
  }

  /** Valid text followed by valid text is valid: appending to a `String` keeps it one. */
  lemma {:induction false} ConcatValid(s: seq<Byte>, t: seq<Byte>)
    requires ValidUtf8(s) && ValidUtf8(t)
    ensures ValidUtf8(s + t)
    decreases |s|
  {
    if s == [] {
      assert s + t == t;
    } else {
      var k := SplitChar(s);
      ConcatValid(s[k..], t);
      ConsChar(s[..k], s[k..] + t);
      assert s + t == s[..k] + (s[k..] + t);
    }
  }

  /** No code point starts with the byte 0xFF, so a valid string stops being one when it is appended. */
  lemma {:induction false} ValidThenFF(s: seq<Byte>)
    requires ValidUtf8(s)
    ensures !ValidUtf8(s + [0xFF])
    decreases |s|
  {
    FromUtf8IsGrammar(s + [0xFF]);
    if s != [] {
      var k := SplitChar(s);
      LeadIsChar(s, k);
      WrongLeadStaysWrong(s, [0xFF]);
      ValidThenFF(s[k..]);
      assert (s + [0xFF])[k..] == s[k..] + [0xFF];
      ValidAfterChar(s + [0xFF], k);
    }
  }
}
