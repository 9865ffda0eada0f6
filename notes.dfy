/**
 * The Note enumeration of the key layout and the text a key renders as.
 *
 * The source gives the twelve notes half-integer values (A = 0, A# = 0.5,
 * B = 1, ..., G# = 6.5) and moves between them with arithmetic modulo 7.
 * Here every value is doubled, so the values are integers (A = 0, A# = 1,
 * B = 2, C = 4, ..., G# = 13) and the arithmetic is modulo 14.
 */
module Notes {
  import opened Options

  datatype Note = A | ASharp | B | C | CSharp | D | DSharp | E | F | FSharp | G | GSharp

  /** The doubled enum value of a note. */
  function Value(n: Note): (v: int)
    ensures 0 <= v < 14 && v != 3 && v != 9
    ensures v % 2 == 1 <==> IsSharp(n)
  {
    match n
    case A => 0
    case ASharp => 1
    case B => 2
    case C => 4
    case CSharp => 5
    case D => 6
    case DSharp => 7
    case E => 8
    case F => 10
    case FSharp => 11
    case G => 12
    case GSharp => 13
  }

  predicate IsSharp(n: Note) {
    n in {ASharp, CSharp, DSharp, FSharp, GSharp}
  }

  /**
   * The lookup `Note(v)`: the member whose (doubled) value is v. Python
   * raises ValueError for a value that is not a member; that is None here.
   */
  function FromValue(v: int): (r: Option<Note>)
    ensures r.Some? ==> Value(r.value) == v
    ensures r.None? <==> !(0 <= v < 14) || v == 3 || v == 9
  {
    match v
    case 0 => Some(A)
    case 1 => Some(ASharp)
    case 2 => Some(B)
    case 4 => Some(C)
    case 5 => Some(CSharp)
    case 6 => Some(D)
    case 7 => Some(DSharp)
    case 8 => Some(E)
    case 10 => Some(F)
    case 11 => Some(FSharp)
    case 12 => Some(G)
    case 13 => Some(GSharp)
    case _ => None
  }

  /** Value and FromValue are inverse to each other on the members. */
  lemma FromValueOfValue(n: Note)
    ensures FromValue(Value(n)) == Some(n)
  {
    match n
    case A =>
    case ASharp =>
    case B =>
    case C =>
    case CSharp =>
    case D =>
    case DSharp =>
    case E =>
    case F =>
    case FSharp =>
    case G =>
    case GSharp =>
  }

  /**
   * `Note((n.value + steps) % 7)` in the source's units: a move by `steps`
   * whole steps of the 7-step numbering, which fails when it lands half-way
   * between two members.
   */
  function Shift(n: Note, steps: int): (r: Option<Note>)
    ensures r.Some? ==> Value(r.value) == (Value(n) + 2 * steps) % 14
  {
    FromValue((Value(n) + 2 * steps) % 14)
  }

  /**
   * Moving a sharp up by two steps stays a member exactly when the sharp is
   * not C# or G#: C# + 2 and G# + 2 would be E# and B#, which the enumeration
   * does not have. Moving down by two fails exactly for D# and G#.
   */
  lemma ShiftOfSharp(n: Note)
    requires IsSharp(n)
    ensures Shift(n, 2).None? <==> n == CSharp || n == GSharp
    ensures Shift(n, -2).None? <==> n == DSharp || n == GSharp
    ensures n == ASharp ==> Shift(n, 2) == Some(CSharp) && Shift(n, -2) == Some(FSharp)
    ensures n == DSharp ==> Shift(n, 2) == Some(FSharp)
    ensures n == FSharp ==> Shift(n, 2) == Some(ASharp) && Shift(n, -2) == Some(DSharp)
    ensures n == CSharp ==> Shift(n, -2) == Some(ASharp)
  {
    match n
    case ASharp => assert (1 + 4) % 14 == 5 && (1 - 4) % 14 == 11;
    case CSharp => assert (5 + 4) % 14 == 9 && (5 - 4) % 14 == 1;
    case DSharp => assert (7 + 4) % 14 == 11 && (7 - 4) % 14 == 3;
    case FSharp => assert (11 + 4) % 14 == 1 && (11 - 4) % 14 == 7;
    case GSharp => assert (13 + 4) % 14 == 3 && (13 - 4) % 14 == 9;
  }

  /**
   * `Note((Note.A.value + d) % 7)` for an integer distance d: the white note
   * d steps above A, cycling through A, B, C, D, E, F, G.
   */
  function ScaleNote(d: int): (r: Note)
    ensures !IsSharp(r)
    ensures Value(r) == 2 * (d % 7)
    ensures Shift(A, d) == Some(r)
  {
    var v := 2 * (d % 7);
    DoubleMod(d);
    FromValue(v).value
  }

  /** Doubling commutes with the reduction: 2 * (d mod 7) == (2 * d) mod 14. */
  lemma DoubleMod(d: int)
    ensures 0 <= 2 * (d % 7) < 14
    ensures 2 * (d % 7) == (Value(A) + 2 * d) % 14
  {
    var q, r := d / 7, d % 7;
    assert d == 7 * q + r && 0 <= r < 7;
    var e := 2 * d;
    assert e == 14 * q + 2 * r;
    assert e % 14 == 2 * r by {
      var q', r' := e / 14, e % 14;
      assert e == 14 * q' + r' && 0 <= r' < 14;
      assert 14 * (q - q') == r' - 2 * r;
    }
    assert Value(A) == 0;
  }

  /** Neighbouring distances give neighbouring notes of the 7-step scale. */
  lemma ScaleNoteStep(d: int)
    ensures Value(ScaleNote(d + 1)) == (Value(ScaleNote(d)) + 2) % 14
  {
  }

  /** The member's Python name, as `Note.name` spells it. */
  function Name(n: Note): string {
    match n
    case A => "A"
    case ASharp => "A_SHARP"
    case B => "B"
    case C => "C"
    case CSharp => "C_SHARP"
    case D => "D"
    case DSharp => "D_SHARP"
    case E => "E"
    case F => "F"
    case FSharp => "F_SHARP"
    case G => "G"
    case GSharp => "G_SHARP"
  }

  /** The letter of a note, without its accidental. */
  function Letter(n: Note): char {
    match n
    case A | ASharp => 'A'
    case B => 'B'
    case C | CSharp => 'C'
    case D | DSharp => 'D'
    case E => 'E'
    case F | FSharp => 'F'
    case G | GSharp => 'G'
  }

  predicate StartsWith(s: string, p: string) {
    |p| <= |s| && s[..|p|] == p
  }

  /** Whether pat occurs somewhere in s. */
  predicate Contains(s: string, pat: string)
    decreases |s|
  {
    StartsWith(s, pat) || (|s| > 0 && Contains(s[1..], pat))
  }

  /**
   * Python's `s.replace(pat, rep)` for a non-empty pattern: every
   * non-overlapping occurrence of pat, from the left, is replaced by rep.
   */
  function Replace(s: string, pat: string, rep: string): (r: string)
    requires |pat| > 0
    ensures !Contains(s, pat) ==> r == s
    decreases |s|
  {
    if |s| < |pat| then s
    else if StartsWith(s, pat) then rep + Replace(s[|pat|..], pat, rep)
    else [s[0]] + Replace(s[1..], pat, rep)
  }

  /** Where pat does not start, the first character is kept and the scan moves on. */
  lemma ReplaceKeepsFirst(s: string, pat: string, rep: string)
    requires |pat| > 0 && |s| >= |pat| && !StartsWith(s, pat)
    ensures Replace(s, pat, rep) == [s[0]] + Replace(s[1..], pat, rep)
  {
  }

  /**
   * The first occurrence is replaced and the scan goes on after it: when
   * no occurrence of pat starts inside a (that is, a followed by all but
   * the last character of pat holds no pat), replacing in a + pat + b
   * keeps a, puts rep for pat, and replaces on in b.
   */
  lemma {:induction false} ReplaceStep(a: string, pat: string, rep: string, b: string)
    requires |pat| > 0 && !Contains(a + pat[..|pat| - 1], pat)
    ensures Replace(a + pat + b, pat, rep) == a + (rep + Replace(b, pat, rep))
    decreases |a|
  {
    if a == [] {
      assert a + pat + b == pat + b;
      ReplaceAtStart(pat, rep, b);
    } else {
      NoMatchAtHead(a, pat, b);
      ReplaceKeepsFirst(a + pat + b, pat, rep);
      ReplaceStep(a[1..], pat, rep, b);
      ConsSplit(a, rep + Replace(b, pat, rep));
    }
  }

  /** An occurrence at the start is replaced, and the scan goes on after it. */
  lemma ReplaceAtStart(pat: string, rep: string, b: string)
    requires |pat| > 0
    ensures Replace(pat + b, pat, rep) == rep + Replace(b, pat, rep)
  {
    assert (pat + b)[..|pat|] == pat;
    assert (pat + b)[|pat|..] == b;
  }

  /** No occurrence inside a: none at the start of a + pat + b, and none inside a[1..]. */
  lemma NoMatchAtHead(a: string, pat: string, b: string)
    requires |pat| > 0 && |a| > 0 && !Contains(a + pat[..|pat| - 1], pat)
    ensures !StartsWith(a + pat + b, pat)
    ensures !Contains(a[1..] + pat[..|pat| - 1], pat)
    ensures (a + pat + b)[0] == a[0] && (a + pat + b)[1..] == a[1..] + pat + b
  {
    var head := a + pat[..|pat| - 1];
    NotContainsHead(head, pat);
    SharedPrefix(a, pat, b);
    DropFirst(a, pat[..|pat| - 1], "");
    DropFirst(a, pat, b);
  }

  /** A string without pat does not start with it, nor hold it after its first character. */
  lemma NotContainsHead(h: string, pat: string)
    requires |h| > 0 && !Contains(h, pat)
    ensures !StartsWith(h, pat) && !Contains(h[1..], pat)
  {
  }

  /** a + pat + b and a + pat[..|pat| - 1] agree on their first |pat| characters. */
  lemma SharedPrefix(a: string, pat: string, b: string)
    requires |pat| > 0 && |a| > 0
    ensures (a + pat + b)[..|pat|] == (a + pat[..|pat| - 1])[..|pat|]
  {
    var s, head := a + pat + b, a + pat[..|pat| - 1];
    forall i | 0 <= i < |pat|
      ensures s[i] == head[i]
    {
      if i >= |a| {
        assert s[i] == pat[i - |a|];
      }
    }
  }

  lemma DropFirst(a: string, p: string, b: string)
    requires |a| > 0
    ensures (a + p)[1..] == a[1..] + p
    ensures (a + p + b)[0] == a[0] && (a + p + b)[1..] == a[1..] + p + b
  {
  }

  lemma ConsSplit(a: string, t: string)
    requires |a| > 0
    ensures [a[0]] + (a[1..] + t) == a + t
  {
  }

  /** A letter followed by `_SHARP` becomes the letter followed by `#`. */
  lemma ReplaceSharpSuffix(c: char)
    requires c != '_'
    ensures Replace([c] + "_SHARP", "_SHARP", "#") == [c] + "#"
  {
    var s := [c] + "_SHARP";
    assert s[..6][0] == c;
    assert !StartsWith(s, "_SHARP");
    assert s[1..] == "_SHARP";
    assert StartsWith(s[1..], "_SHARP");
    assert s[1..][6..] == "";
  }

  /** `Note.pretty_name`: the name with `_SHARP` replaced by `#`. */
  function PrettyName(n: Note): string {
    Replace(Name(n), "_SHARP", "#")
  }

  /** The pretty name is the letter, followed by `#` exactly for the sharps. */
  lemma PrettyNameSpelled(n: Note)
    ensures PrettyName(n) == [Letter(n)] + (if IsSharp(n) then "#" else "")
  {
    if IsSharp(n) {
      assert Name(n) == [Letter(n)] + "_SHARP";
      ReplaceSharpSuffix(Letter(n));
    }
  }

  function DigitChar(d: nat): char
    requires d < 10
  {
    "0123456789"[d]
  }

  /** Python's `str(n)` for a natural number: its decimal digits. */
  function NatToString(n: nat): (s: string)
    ensures |s| > 0 && forall i :: 0 <= i < |s| ==> '0' <= s[i] <= '9'
    decreases n
  {
    if n < 10 then [DigitChar(n)] else NatToString(n / 10) + [DigitChar(n % 10)]
  }

  /** The number a string of decimal digits reads as. */
  function DigitsValue(s: string): int
    requires forall i :: 0 <= i < |s| ==> '0' <= s[i] <= '9'
  {
    if s == [] then 0 else 10 * DigitsValue(s[..|s| - 1]) + (s[|s| - 1] as int - '0' as int)
  }

  lemma {:induction false} NatToStringReadsBack(n: nat)
    ensures DigitsValue(NatToString(n)) == n
    decreases n
  {
    if n >= 10 {
      NatToStringReadsBack(n / 10);
      var s := NatToString(n);
      assert s[..|s| - 1] == NatToString(n / 10);
    }
  }

  /** Python's `str(i)` for an integer: a minus sign before a negative one. */
  function IntToString(i: int): (s: string)
    ensures |s| > 0 && forall k :: 0 <= k < |s| ==> ('0' <= s[k] <= '9') || s[k] == '-'
    ensures (s[0] == '-') <==> i < 0
  {
    if i < 0 then "-" + NatToString(-i) else NatToString(i)
  }

  /** `'{}'.format(octave)`: an unset octave prints as `None`. */
  function OctaveText(octave: Option<int>): (s: string)
    ensures forall i :: 0 <= i < |s| ==> s[i] != ',' && s[i] != '[' && s[i] != ']'
  {
    match octave
    case None => "None"
    case Some(i) => IntToString(i)
  }

  /**
   * `str(key)` on the key's note and octave: the pretty name followed by the
   * octave, or `??` when the note is unset (an enum member is always truthy,
   * so `if self.note` tests for None only).
   */
  function KeyLabel(note: Option<Note>, octave: Option<int>): (r: string)
    ensures r == "??" <==> note.None?
    ensures note.Some? ==> r == [Letter(note.value)] + (if IsSharp(note.value) then "#" else "") + OctaveText(octave)
    ensures forall i :: 0 <= i < |r| ==> r[i] != ',' && r[i] != '[' && r[i] != ']'
  {
    match note
    case None => "??"
    case Some(n) =>
      PrettyNameSpelled(n);
      var r := PrettyName(n) + OctaveText(octave);
      assert r[0] == Letter(n);
      r
  }

  lemma KeyLabelExamples()
    ensures KeyLabel(Some(CSharp), Some(4)) == "C#4"
    ensures KeyLabel(Some(A), Some(-1)) == "A-1"
    ensures KeyLabel(Some(GSharp), None) == "G#None"
    ensures KeyLabel(None, Some(3)) == "??"
  {
    assert NatToString(4) == "4";
    assert NatToString(1) == "1";
  }
}
