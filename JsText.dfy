/** The JavaScript built-ins the meeting core leans on: values that may be
    missing, thrown values, `String.prototype.includes`, `split` on one
    character, `Number(string)` and `String(number)` for integers. */
module JsText {

  datatype Option<T> = None | Some(value: T)

  /** A value thrown by JavaScript code: an `Error` instance with its
      message, or anything else (`error instanceof Error` is false). */
  datatype Thrown = ErrorObject(message: string) | NonError

  /** The completion of a call: a returned value or a thrown one. */
  datatype Completion<T> = Returned(value: T) | Threw(thrown: Thrown)

  /** A JSON field read by destructuring: absent (undefined), null, or text. */
  datatype JsonText = Missing | Null | Text(s: string)

  /** JavaScript truthiness of a JSON text field: a non-empty string. */
  predicate Truthy(f: JsonText)
  {
    f.Text? && f.s != ""
  }

  /** Truthiness of an optional string (undefined or "" are falsy). */
  predicate TruthyString(o: Option<string>)
  {
    o.Some? && o.value != ""
  }

  // ---------------------------------------------------------------------
  // String.prototype.includes

  /** `sub` occurs in `s` at position `i`. */
  predicate OccursAt(s: string, sub: string, i: nat)
  {
    i + |sub| <= |s| && s[i..i + |sub|] == sub
  }

  /** `s.includes(sub)`, computed by trying each position from the left. */
  predicate Includes(s: string, sub: string)
    decreases |s|
  {
    if |sub| > |s| then false
    else if s[..|sub|] == sub then true
    else Includes(s[1..], sub)
  }

  /** `Includes` holds exactly when there is a position where `sub` occurs. */
  lemma {:induction false} IncludesIffOccurs(s: string, sub: string)
    ensures Includes(s, sub) <==> exists i: nat :: OccursAt(s, sub, i)
    decreases |s|
  {
    if |sub| > |s| {
      forall i: nat ensures !OccursAt(s, sub, i) { }
    } else if s[..|sub|] == sub {
      assert OccursAt(s, sub, 0);
    } else {
      IncludesIffOccurs(s[1..], sub);
      if Includes(s[1..], sub) {
        var i: nat :| OccursAt(s[1..], sub, i);
        assert s[1..][i..i + |sub|] == s[i + 1..i + 1 + |sub|];
        assert OccursAt(s, sub, i + 1);
      } else {
        forall i: nat | OccursAt(s, sub, i) ensures false {
          assert i != 0;
          assert s[1..][i - 1..i - 1 + |sub|] == s[i..i + |sub|];
          assert OccursAt(s[1..], sub, i - 1);
        }
      }
    }
  }

  /** A string lacking one of `sub`'s characters does not include `sub`. */
  lemma NotIncludedWithoutChar(s: string, sub: string, k: nat)
    requires k < |sub| && sub[k] !in s
    ensures !Includes(s, sub)
  {
    IncludesIffOccurs(s, sub);
  }

  // ---------------------------------------------------------------------
  // String.prototype.split with a one-character separator

  /** `s.split(sep)`: the maximal pieces between occurrences of `sep`;
      the empty string splits into one empty piece. */
  function Split(s: string, sep: char): (parts: seq<string>)
    ensures |parts| >= 1
    decreases |s|
  {
    if s == [] then [""]
    else
      var rest := Split(s[1..], sep);
      if s[0] == sep then [""] + rest
      else [[s[0]] + rest[0]] + rest[1..]
  }

  /** `parts.join(sep)`. */
  function Join(parts: seq<string>, sep: char): string
    requires |parts| >= 1
    decreases |parts|
  {
    if |parts| == 1 then parts[0] else parts[0] + [sep] + Join(parts[1..], sep)
  }

  /** Splitting loses nothing: joining the pieces gives back the string,
      and no piece contains the separator. */
  lemma {:induction false} SplitJoin(s: string, sep: char)
    ensures Join(Split(s, sep), sep) == s
    ensures forall k :: 0 <= k < |Split(s, sep)| ==> sep !in Split(s, sep)[k]
    decreases |s|
  {
    if s != [] {
      SplitJoin(s[1..], sep);
      var rest := Split(s[1..], sep);
      if s[0] == sep {
        assert Split(s, sep) == [""] + rest;
        assert ([""] + rest)[1..] == rest;
        assert s == [sep] + s[1..];
      } else {
        var parts := Split(s, sep);
        assert parts == [[s[0]] + rest[0]] + rest[1..];
        if |rest| == 1 {
          assert s == [s[0]] + s[1..];
        } else {
          assert parts[1..] == rest[1..];
          assert Join(rest, sep) == rest[0] + [sep] + Join(rest[1..], sep);
          assert s == [s[0]] + s[1..];
        }
        forall k | 0 <= k < |parts| ensures sep !in parts[k] {
          if k > 0 {
            assert parts[k] == rest[k];
          }
        }
      }
    }
  }

  /** A string free of the separator is one piece. */
  lemma {:induction false} SplitNoSeparator(a: string, sep: char)
    requires sep !in a
    ensures Split(a, sep) == [a]
    decreases |a|
  {
    if a != [] {
      SplitNoSeparator(a[1..], sep);
      assert [a[0]] + a[1..] == a;
    }
  }

  /** A separator-free prefix followed by the separator is the first piece:
      splitting reads pieces strictly by position. */
  lemma {:induction false} SplitAfterPiece(a: string, sep: char, b: string)
    requires sep !in a
    ensures Split(a + [sep] + b, sep) == [a] + Split(b, sep)
    decreases |a|
  {
    if a == [] {
      assert a + [sep] + b == [sep] + b;
      assert ([sep] + b)[1..] == b;
    } else {
      var s := a + [sep] + b;
      assert s[0] == a[0];
      assert s[1..] == a[1..] + [sep] + b;
      SplitAfterPiece(a[1..], sep, b);
      assert [a[0]] + a[1..] == a;
    }
  }

  /** Three pieces without the separator, joined by it, split back into
      those three pieces. */
  lemma SplitThree(a: string, b: string, c: string, sep: char)
    requires sep !in a && sep !in b && sep !in c
    ensures Split(a + [sep] + b + [sep] + c, sep) == [a, b, c]
  {
    SplitNoSeparator(c, sep);
    SplitAfterPiece(b, sep, c);
    assert a + [sep] + b + [sep] + c == a + [sep] + (b + [sep] + c);
    SplitAfterPiece(a, sep, b + [sep] + c);
  }

  // ---------------------------------------------------------------------
  // Number(string), restricted to optionally signed decimal digit strings

  predicate IsDigit(c: char)
  {
    '0' <= c <= '9'
  }

  predicate AllDigits(s: string)
  {
    forall i :: 0 <= i < |s| ==> IsDigit(s[i])
  }

  /** The value of a decimal digit string (the empty string is 0). */
  function DigitsValue(s: string): nat
    requires AllDigits(s)
    decreases |s|
  {
    if s == [] then 0
    else DigitsValue(s[..|s| - 1]) * 10 + (s[|s| - 1] as int - '0' as int)
  }

  /** `Number(s)` for the strings the model admits: the empty string is 0,
      an optional sign followed by digits is that integer, anything else is
      NaN (written None). */
  function StringToNumber(s: string): Option<int>
  {
    if s == [] then Some(0)
    else if |s| > 1 && s[0] == '-' && AllDigits(s[1..]) then Some(0 - DigitsValue(s[1..]) as int)
    else if |s| > 1 && s[0] == '+' && AllDigits(s[1..]) then Some(DigitsValue(s[1..]))
    else if AllDigits(s) then Some(DigitsValue(s))
    else None
  }

  function DigitChar(d: int): char
    requires 0 <= d < 10
  {
    ('0' as int + d) as char
  }

  /** The shortest decimal digits of `n`. */
  function NatToDigits(n: nat): (s: string)
    ensures |s| >= 1
    decreases n
  {
    if n < 10 then [DigitChar(n)] else NatToDigits(n / 10) + [DigitChar(n % 10)]
  }

  /** `String(n)` for an integer: digits with a leading minus when negative. */
  function IntToString(n: int): string
  {
    if n < 0 then "-" + NatToDigits(-n) else NatToDigits(n)
  }

  /** `n` in decimal, left-padded with zeros to at least `width` digits. */
  function PadDigits(n: nat, width: nat): (s: string)
    decreases width
  {
    var d := NatToDigits(n);
    if |d| >= width then d else "0" + PadDigits(n, width - 1)
  }

  lemma {:induction false} NatToDigitsValue(n: nat)
    ensures AllDigits(NatToDigits(n)) && DigitsValue(NatToDigits(n)) == n
    decreases n
  {
    var s := NatToDigits(n);
    if n >= 10 {
      NatToDigitsValue(n / 10);
      assert s[..|s| - 1] == NatToDigits(n / 10);
    }
  }

  /** A leading zero does not change the value of a digit string. */
  lemma {:induction false} LeadingZero(s: string)
    requires AllDigits(s)
    ensures AllDigits("0" + s) && DigitsValue("0" + s) == DigitsValue(s)
    decreases |s|
  {
    if s != [] {
      LeadingZero(s[..|s| - 1]);
      assert ("0" + s)[..|"0" + s| - 1] == "0" + s[..|s| - 1];
    }
  }

  lemma {:induction false} PadDigitsValue(n: nat, width: nat)
    ensures AllDigits(PadDigits(n, width)) && DigitsValue(PadDigits(n, width)) == n
    ensures |PadDigits(n, width)| >= width && |PadDigits(n, width)| >= 1
    decreases width
  {
    NatToDigitsValue(n);
    if |NatToDigits(n)| < width {
      PadDigitsValue(n, width - 1);
      LeadingZero(PadDigits(n, width - 1));
    }
  }

  /** `Number(String(n)) == n`: the integer formatter and the parser are
      inverse on every integer. */
  lemma IntToStringRoundTrip(n: int)
    ensures StringToNumber(IntToString(n)) == Some(n)
  {
    NatToDigitsValue(if n < 0 then -n else n);
    var s := IntToString(n);
    if n < 0 {
      assert s[1..] == NatToDigits(-n);
    }
  }

  /** An id written as a prefix followed by a millisecond clock, as in
      `${prefix}${Date.now()}`: it starts with the prefix, and the rest
      reads back as the clock. */
  function StampedId(prefix: string, clock: int): (id: string)
    ensures |prefix| < |id| && id[..|prefix|] == prefix
    ensures StringToNumber(id[|prefix|..]) == Some(clock)
  {
    IntToStringRoundTrip(clock);
    var id := prefix + IntToString(clock);
    assert id[|prefix|..] == IntToString(clock);
    id
  }

  /** A zero-padded field reads back as the number it pads. */
  lemma PadDigitsRoundTrip(n: nat, width: nat)
    ensures StringToNumber(PadDigits(n, width)) == Some(n)
  {
    PadDigitsValue(n, width);
  }

  /** A zero-padded field holds digits only, so no other character. */
  lemma PadDigitsWithout(c: char, n: nat, width: nat)
    requires !IsDigit(c)
    ensures c !in PadDigits(n, width)
  {
    PadDigitsValue(n, width);
  }
}
