/**
 * MAC-address handling of wakeOnLan: normalisation (upper case, ':' becomes '-'),
 * the acceptance test (a regular-expression search plus a length test), and the
 * decoding of the six hex groups into bytes.
 */
module Mac {
  import opened PhpStrings

  /** Length of the canonical text form HH-HH-HH-HH-HH-HH. */
  const MacTextLength: nat := 17

  /** strtoupper, then str_replace(':', '-', ...). */
  function Normalize(mac: string): string {
    StrReplaceChar(':', '-', StrToUpper(mac))
  }

  /** A character of the class [A-F0-9] (the class [0-9A-F] is the same set). */
  predicate IsUpperHex(c: char) {
    '0' <= c <= '9' || 'A' <= c <= 'F'
  }

  /** t is one match of ([A-F0-9]{2}[-]){5}([0-9A-F]){2}: 17 characters, '-' at every third place. */
  predicate MacShape(t: string) {
    |t| == MacTextLength &&
    forall j | 0 <= j < MacTextLength :: if j % 3 == 2 then t[j] == '-' else IsUpperHex(t[j])
  }

  /** The pattern matches s at position i. */
  predicate MatchAt(s: string, i: nat) {
    i + MacTextLength <= |s| && MacShape(s[i..i + MacTextLength])
  }

  /** The unanchored search preg_match performs, trying positions i, i+1, ... in turn. */
  function SearchFrom(s: string, i: nat): bool
    decreases |s| - i
  {
    if i + MacTextLength > |s| then false else MatchAt(s, i) || SearchFrom(s, i + 1)
  }

  /** The search succeeds iff some position at or after i matches. */
  lemma {:induction false} SearchFromFinds(s: string, i: nat)
    ensures SearchFrom(s, i) <==> exists j: nat :: i <= j && MatchAt(s, j)
    decreases |s| - i
  {
    if i + MacTextLength <= |s| {
      SearchFromFinds(s, i + 1);
      if SearchFrom(s, i + 1) {
        var j: nat :| i + 1 <= j && MatchAt(s, j);
      }
      if exists j: nat :: i <= j && MatchAt(s, j) {
        var j: nat :| i <= j && MatchAt(s, j);
        assert j == i || (i + 1 <= j && MatchAt(s, j));
      }
    }
  }

  /** Line 54 of the source, negated: the pattern is found somewhere and the length is 17. */
  predicate Accepted(mac: string) {
    SearchFrom(mac, 0) && |mac| == MacTextLength
  }

  /** The length test turns the unanchored search into a whole-string match. */
  lemma AcceptedIffShape(mac: string)
    ensures Accepted(mac) <==> MacShape(mac)
  {
    SearchFromFinds(mac, 0);
    if MacShape(mac) {
      assert mac[0..MacTextLength] == mac;
      assert MatchAt(mac, 0);
    }
    if Accepted(mac) {
      var j: nat :| MatchAt(mac, j);
      assert j == 0;
      assert mac[0..MacTextLength] == mac;
    }
  }

  /** Normalised text holds no lower-case ASCII letter and no ':'; normalising twice changes nothing. */
  lemma NormalizeIsCanonical(mac: string)
    ensures |Normalize(mac)| == |mac|
    ensures forall i | 0 <= i < |mac| :: Normalize(mac)[i] != ':' && !('a' <= Normalize(mac)[i] <= 'z')
    ensures Normalize(Normalize(mac)) == Normalize(mac)
  {
  }

  /** Colon and hyphen spellings, in any letter case, normalise identically. */
  lemma SpellingsNormaliseAlike(a: string, b: string)
    requires |a| == |b|
    requires forall i | 0 <= i < |a| ::
      UpperChar(a[i]) == UpperChar(b[i]) || (a[i] in ":-" && b[i] in ":-")
    ensures Normalize(a) == Normalize(b)
  {
  }

  /** The hex groups bytes are decoded from: explode('-', mac). */
  function Groups(mac: string): seq<string> {
    Explode('-', mac)
  }

  /** chr(hexdec(group)) for each group, in order. */
  function HwAddress(groups: seq<string>): seq<byte> {
    seq(|groups|, i requires 0 <= i < |groups| => Chr(HexDec(groups[i])))
  }

  /** Every third character of u is '-' (and no other). */
  predicate Hyphenated(u: string) {
    forall j | 0 <= j < |u| :: (j % 3 == 2 <==> u[j] == '-')
  }

  /** explode('-', u) cuts a hyphenated text of m + 1 groups into its two-character groups. */
  lemma {:induction false} ExplodeHyphenated(u: string, m: nat)
    requires |u| == 3 * m + 2 && Hyphenated(u)
    ensures Explode('-', u) == seq(m + 1, g requires 0 <= g <= m => u[3 * g..3 * g + 2])
  {
    var groups := seq(m + 1, g requires 0 <= g <= m => u[3 * g..3 * g + 2]);
    if m == 0 {
      assert '-' !in u by {
        assert u[0] != '-' && u[1] != '-';
      }
      ExplodeWithoutSeparator('-', u);
      assert u[0..2] == u;
    } else {
      var tail := u[3..];
      assert Hyphenated(tail) by {
        forall j | 0 <= j < |tail| ensures (j % 3 == 2 <==> tail[j] == '-') {
          assert tail[j] == u[j + 3];
          assert (j + 3) % 3 == j % 3;
        }
      }
      ExplodeHyphenated(tail, m - 1);
      assert '-' !in u[..2] by {
        assert u[0] != '-' && u[1] != '-';
      }
      assert u == u[..2] + ['-'] + tail;
      ExplodeAtSeparator('-', u[..2], tail);
      var tailGroups := seq(m, g requires 0 <= g < m => tail[3 * g..3 * g + 2]);
      assert Explode('-', u) == [u[..2]] + tailGroups;
      forall g | 0 <= g <= m ensures ([u[..2]] + tailGroups)[g] == groups[g] {
        if g > 0 {
          assert tail[3 * (g - 1)..3 * (g - 1) + 2] == u[3 * g..3 * g + 2];
        }
      }
    }
  }

  /** An accepted MAC text decodes to six bytes, each the value of its two hex digits. */
  lemma {:induction false} DecodeAccepted(mac: string)
    requires MacShape(mac)
    ensures |HwAddress(Groups(mac))| == 6
    ensures forall k | 0 <= k < 6 ::
      HwAddress(Groups(mac))[k] as int == 16 * HexDigitValue(mac[3 * k]) + HexDigitValue(mac[3 * k + 1])
  {
    assert Hyphenated(mac) by {
      forall j | 0 <= j < |mac| ensures (j % 3 == 2 <==> mac[j] == '-') {
        assert j % 3 == 2 || IsUpperHex(mac[j]);
      }
    }
    ExplodeHyphenated(mac, 5);
    forall k | 0 <= k < 6
      ensures HwAddress(Groups(mac))[k] as int == 16 * HexDigitValue(mac[3 * k]) + HexDigitValue(mac[3 * k + 1])
    {
      var g := mac[3 * k..3 * k + 2];
      assert g == [mac[3 * k], mac[3 * k + 1]];
      assert (3 * k) % 3 == 0 && (3 * k + 1) % 3 == 1;
      HexDecPair(mac[3 * k], mac[3 * k + 1]);
    }
  }

  /** A colon spelling in lower case and a hyphen spelling in upper case give one text. */
  lemma ExampleSpellings()
    ensures Normalize("00:11:22:33:aa:bb") == "00-11-22-33-AA-BB"
    ensures Normalize("00-11-22-33-AA-BB") == "00-11-22-33-AA-BB"
  {
  }

  /** A well-formed canonical text is accepted. */
  lemma ExampleAccepted()
    ensures Accepted("00-11-22-33-AA-BB")
  {
    AcceptedIffShape("00-11-22-33-AA-BB");
  }

  /** Five groups are too short. */
  lemma ExampleTooShort()
    ensures !Accepted(Normalize("00:11:22:33:44"))
  {
  }

  /** 'G' is not a hex digit. */
  lemma ExampleNotHex()
    ensures !Accepted(Normalize("GG-11-22-33-44-55"))
  {
    var t := Normalize("GG-11-22-33-44-55");
    AcceptedIffShape(t);
    assert t[0] == 'G';
  }

  /** The search finds a match inside a longer text, and the length test still refuses it. */
  lemma ExampleLongerText()
    ensures SearchFrom("X00-11-22-33-44-55", 0)
    ensures !Accepted("X00-11-22-33-44-55")
  {
    var s := "X00-11-22-33-44-55";
    assert s[1..18] == "00-11-22-33-44-55";
    assert MacShape(s[1..18]);
    SearchFromFinds(s, 0);
    assert MatchAt(s, 1);
  }
}
