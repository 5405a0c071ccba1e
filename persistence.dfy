/**
 * The text level format of TextFilePersistence.cs: the file is split on
 * white space, the first token is the map size and the remaining tokens are
 * read two by two as wall coordinates (row, column). Reading the file is left
 * to the caller: a level source is the path's outcome, either no path, a file
 * that cannot be read, or the file's text.
 */
module Persistence {
  import opened Wrappers

  /** What `LoadLevel` is given: a null path, an unreadable file, or the file's contents. */
  datatype Source = NullPath | Unreadable | Text(contents: string)

  /** The exceptions `LoadLevel` throws: ArgumentNullException and DataException. */
  datatype Fault = ArgumentNull | DataError

  /** A loaded level: the side of the square map and the walls in file order. */
  datatype Level = Level(size: int, walls: seq<(int, int)>)

  const Int32Min: int := -0x8000_0000
  const Int32Max: int := 0x7FFF_FFFF

  /** The smallest map size a level file may declare. */
  const MinSize: int := 6

  // ------------------------------------------------------------- tokenizing

  /** The characters .NET's `char.IsWhiteSpace` accepts. */
  predicate IsWhiteSpace(c: char) {
    || '\U{0009}' <= c <= '\U{000D}' || c == ' ' || c == '\U{0085}' || c == '\U{00A0}'
    || c == '\U{1680}' || '\U{2000}' <= c <= '\U{200A}' || c == '\U{2028}' || c == '\U{2029}'
    || c == '\U{202F}' || c == '\U{205F}' || c == '\U{3000}'
  }

  /** A token: a string with no white space in it (it may be empty). */
  predicate Unbroken(t: string) {
    forall i :: 0 <= i < |t| ==> !IsWhiteSpace(t[i])
  }

  /**
   * `String.Split()` with no separators: every white-space character ends a
   * token, so two separators in a row, or one at either end, give an empty
   * token. There is always at least one token.
   */
  function Split(s: string): (r: seq<string>)
    ensures |r| >= 1
    ensures forall k :: 0 <= k < |r| ==> Unbroken(r[k])
  {
    if s == [] then [""]
    else
      var rest := Split(s[1..]);
      if IsWhiteSpace(s[0]) then [""] + rest
      else [[s[0]] + rest[0]] + rest[1..]
  }

  /** The tokens separated by single spaces: the inverse of `Split` on tokens. */
  function Join(ts: seq<string>): string
    requires |ts| >= 1
  {
    if |ts| == 1 then ts[0] else ts[0] + " " + Join(ts[1..])
  }

  // ------------------------------------------------------------- integers

  predicate IsDigit(c: char) {
    '0' <= c <= '9'
  }

  predicate AllDigits(s: string) {
    forall i :: 0 <= i < |s| ==> IsDigit(s[i])
  }

  /** The value of a run of decimal digits, most significant first. */
  function Magnitude(s: string): nat
    requires AllDigits(s)
  {
    if s == [] then 0
    else Magnitude(s[..|s| - 1]) * 10 + (s[|s| - 1] as int - '0' as int)
  }

  /** The sign and digits of a token that does not end in '\0'. */
  function ParseSigned(u: string): (r: Option<int>)
    ensures r.Some? ==> Int32Min <= r.value <= Int32Max
    ensures r.Some? ==> |u| > 0 && (IsDigit(u[0]) || u[0] == '-' || u[0] == '+')
  {
    var signed := |u| > 0 && (u[0] == '-' || u[0] == '+');
    var digits := if signed then u[1..] else u;
    if digits == [] || !AllDigits(digits) then None
    else
      var v: int := if signed && u[0] == '-' then -(Magnitude(digits) as int) else Magnitude(digits);
      if Int32Min <= v <= Int32Max then Some(v) else None
  }

  /**
   * `int.Parse` with its default style: an optional leading `+` or `-`, at
   * least one decimal digit, and a value that fits in 32 bits. Trailing
   * '\0' characters after the digits are ignored, as .NET does. `None`
   * stands for its FormatException and OverflowException.
   */
  function ParseInt(t: string): (r: Option<int>)
    ensures r.Some? ==> Int32Min <= r.value <= Int32Max
    ensures r.Some? ==> |t| > 0 && (IsDigit(t[0]) || t[0] == '-' || t[0] == '+')
    decreases |t|
  {
    if |t| > 0 && t[|t| - 1] == '\0' then ParseInt(t[..|t| - 1]) else ParseSigned(t)
  }

  /** A '\0' after a token changes nothing: "6\0" reads as 6. */
  lemma TrailingNulIgnored(t: string)
    ensures ParseInt(t + ['\0']) == ParseInt(t)
  {
    assert (t + ['\0'])[..|t|] == t;
  }

  /** The decimal digits of `v`, without leading zeros. */
  function Decimal(v: nat): (r: string)
    ensures |r| >= 1 && AllDigits(r)
  {
    var d := ['0' + (v % 10) as char];
    if v < 10 then d else Decimal(v / 10) + d
  }

  /** `x.ToString()`: a minus sign for negative values, then the digits. */
  function ToDecimal(x: int): (r: string)
    ensures Unbroken(r)
  {
    if x < 0 then "-" + Decimal(-x) else Decimal(x)
  }

  // ------------------------------------------------------------- the level

  /**
   * The wall loop `for (i = 1; i < numbers.Length; i = i + 2)` over the
   * tokens after the size: the pairs it appended, in file order, and whether
   * it ran to the end. It stops at a token that is not an integer or at a
   * last token with no partner.
   */
  function ReadWalls(tokens: seq<string>): (r: (seq<(int, int)>, bool))
    ensures |r.0| <= |tokens| / 2
    decreases |tokens|
  {
    if |tokens| == 0 then ([], true)
    else if ParseInt(tokens[0]).None? || |tokens| == 1 || ParseInt(tokens[1]).None? then ([], false)
    else
      var rest := ReadWalls(tokens[2..]);
      ([(ParseInt(tokens[0]).value, ParseInt(tokens[1]).value)] + rest.0, rest.1)
  }

  /** A level read from its tokens, or None where `LoadLevel` throws DataException. */
  function ParseLevel(tokens: seq<string>): (r: Option<Level>)
    ensures r.Some? ==> |tokens| >= 1 && ParseInt(tokens[0]) == Some(r.value.size) && r.value.size >= MinSize
  {
    if |tokens| == 0 then None
    else match ParseInt(tokens[0])
      case None => None
      case Some(size) =>
        if size < MinSize then None
        else
          var walls := ReadWalls(tokens[1..]);
          if walls.1 then Some(Level(size, walls.0)) else None
  }

  /** The whole of `LoadLevel` on a level source. */
  function Load(path: Source): (r: Result<Level, Fault>)
    ensures path.NullPath? ==> r == Failure(ArgumentNull)
    ensures !path.NullPath? && r.Failure? ==> r.error == DataError
    ensures r.Success? ==> path.Text? && r.value.size >= MinSize
  {
    match path
    case NullPath => Failure(ArgumentNull)
    case Unreadable => Failure(DataError)
    case Text(s) =>
      match ParseLevel(Split(s))
      case Some(level) => Success(level)
      case None => Failure(DataError)
  }

  /** The file a level is written as: its tokens joined by single spaces. */
  function Format(level: Level): string {
    Join([ToDecimal(level.size)] + WallTokens(level.walls))
  }

  function WallTokens(walls: seq<(int, int)>): (r: seq<string>)
    ensures |r| == 2 * |walls|
  {
    if walls == [] then [] else [ToDecimal(walls[0].0), ToDecimal(walls[0].1)] + WallTokens(walls[1..])
  }

  /** A level a file can hold: a size of at least six and 32-bit coordinates. */
  predicate Storable(level: Level) {
    && MinSize <= level.size <= Int32Max
    && forall k :: 0 <= k < |level.walls| ==>
         Int32Min <= level.walls[k].0 <= Int32Max && Int32Min <= level.walls[k].1 <= Int32Max
  }

  /** Every wall of a successful load lies on the map; the engine relies on it without checking. */
  predicate WallsInside(path: Source) {
    match Load(path)
    case Success(level) =>
      forall k :: 0 <= k < |level.walls| ==>
        0 <= level.walls[k].0 < level.size && 0 <= level.walls[k].1 < level.size
    case Failure(_) => true
  }

  /** The tokens that form a level: an odd count, a size of at least six, integers throughout. */
  predicate WellFormed(tokens: seq<string>) {
    && |tokens| % 2 == 1
    && ParseInt(tokens[0]).Some? && ParseInt(tokens[0]).value >= MinSize
    && AllIntegers(tokens)
  }

  // ------------------------------------------------------------- lemmas

  /** Splitting a token followed by more text: the token starts the first piece. */
  lemma {:induction false} SplitAfter(t: string, s: string)
    requires Unbroken(t)
    ensures Split(t + s) == [t + Split(s)[0]] + Split(s)[1..]
    decreases |t|
  {
    if t != [] {
      assert (t + s)[0] == t[0] && !IsWhiteSpace(t[0]);
      assert (t + s)[1..] == t[1..] + s;
      assert Unbroken(t[1..]) by {
        forall i | 0 <= i < |t[1..]| ensures !IsWhiteSpace(t[1..][i]) {
          assert t[1..][i] == t[i + 1];
        }
      }
      SplitAfter(t[1..], s);
      var rest := Split(t[1..] + s);
      assert rest[0] == t[1..] + Split(s)[0] && rest[1..] == Split(s)[1..];
      assert [t[0]] + (t[1..] + Split(s)[0]) == t + Split(s)[0];
    } else {
      assert t + s == s && t + Split(s)[0] == Split(s)[0];
      assert [Split(s)[0]] + Split(s)[1..] == Split(s);
    }
  }

  /** Splitting joined tokens gives the tokens back, empty ones included. */
  lemma {:induction false} SplitJoin(ts: seq<string>)
    requires |ts| >= 1
    requires forall k :: 0 <= k < |ts| ==> Unbroken(ts[k])
    ensures Split(Join(ts)) == ts
    decreases |ts|
  {
    if |ts| == 1 {
      SplitAfter(ts[0], "");
      assert ts[0] + "" == ts[0];
    } else {
      SplitJoin(ts[1..]);
      var rest := Join(ts[1..]);
      assert Join(ts) == ts[0] + (" " + rest);
      SplitAfter(ts[0], " " + rest);
      assert (" " + rest)[1..] == rest;
      assert Split(" " + rest) == [""] + ts[1..];
      assert ts[0] + "" == ts[0];
    }
  }

  /** A file that ends in white space has an empty last token. */
  lemma {:induction false} TrailingSpaceGivesEmptyToken(s: string, c: char)
    requires IsWhiteSpace(c)
    ensures Split(s + [c])[|Split(s + [c])| - 1] == ""
    decreases |s|
  {
    if s != [] {
      assert (s + [c])[1..] == s[1..] + [c];
      TrailingSpaceGivesEmptyToken(s[1..], c);
    }
  }

  /** Reading back the decimal digits of a number gives the number. */
  lemma {:induction false} MagnitudeOfDecimal(v: nat)
    ensures Magnitude(Decimal(v)) == v
    decreases v
  {
    var d := ['0' + (v % 10) as char];
    if v >= 10 {
      MagnitudeOfDecimal(v / 10);
      var s := Decimal(v / 10) + d;
      assert s[..|s| - 1] == Decimal(v / 10);
    }
  }

  /** `int.Parse` inverts `ToString` on every 32-bit value. */
  lemma ParseToDecimal(x: int)
    requires Int32Min <= x <= Int32Max
    ensures ParseInt(ToDecimal(x)) == Some(x)
  {
    var t := ToDecimal(x);
    if x < 0 {
      MagnitudeOfDecimal(-x);
      assert t[0] == '-' && t[1..] == Decimal(-x);
    } else {
      MagnitudeOfDecimal(x);
      assert t == Decimal(x) && IsDigit(t[0]);
    }
  }

  /** An empty token is not an integer. */
  lemma EmptyTokenIsNoInteger()
    ensures ParseInt("") == None
  {
  }

  /** Every token is an integer. */
  predicate AllIntegers(tokens: seq<string>) {
    forall k :: 0 <= k < |tokens| ==> ParseInt(tokens[k]).Some?
  }

  lemma AllIntegersSplit(tokens: seq<string>, d: nat)
    requires d <= |tokens|
    ensures AllIntegers(tokens) <==> AllIntegers(tokens[..d]) && AllIntegers(tokens[d..])
  {
    if AllIntegers(tokens[..d]) && AllIntegers(tokens[d..]) {
      forall k | 0 <= k < |tokens| ensures ParseInt(tokens[k]).Some? {
        if k < d { assert tokens[k] == tokens[..d][k]; } else { assert tokens[k] == tokens[d..][k - d]; }
      }
    }
    if AllIntegers(tokens) {
      assert forall k :: 0 <= k < d ==> tokens[..d][k] == tokens[k];
      assert forall k :: 0 <= k < |tokens| - d ==> tokens[d..][k] == tokens[k + d];
    }
  }

  /** The tokens are all integers when the first two are and the rest are. */
  lemma AllIntegersPair(tokens: seq<string>)
    requires |tokens| >= 2
    ensures AllIntegers(tokens) <==>
      ParseInt(tokens[0]).Some? && ParseInt(tokens[1]).Some? && AllIntegers(tokens[2..])
  {
    AllIntegersSplit(tokens, 2);
    assert tokens[..2][0] == tokens[0] && tokens[..2][1] == tokens[1];
  }

  /** The wall loop runs to the end exactly when the tokens pair up and are all integers. */
  lemma {:induction false} ReadWallsComplete(tokens: seq<string>)
    ensures ReadWalls(tokens).1 <==> |tokens| % 2 == 0 && AllIntegers(tokens)
    decreases |tokens|
  {
    if |tokens| >= 2 {
      ReadWallsComplete(tokens[2..]);
      AllIntegersPair(tokens);
    }
  }

  /** The k-th wall is read, with `read`, from tokens 2k and 2k+1, for every wall. */
  predicate PairedWith<T>(tokens: seq<T>, read: T -> Option<int>, walls: seq<(int, int)>) {
    && |tokens| == 2 * |walls|
    && forall k :: 0 <= k < |walls| ==>
         read(tokens[2 * k]).Some? && read(tokens[2 * k + 1]).Some? &&
         walls[k] == (read(tokens[2 * k]).value, read(tokens[2 * k + 1]).value)
  }

  /** Two readable tokens in front add their wall in front. */
  lemma PairedCons<T>(tokens: seq<T>, read: T -> Option<int>, walls: seq<(int, int)>)
    requires |tokens| >= 2 && read(tokens[0]).Some? && read(tokens[1]).Some?
    requires PairedWith(tokens[2..], read, walls)
    ensures PairedWith(tokens, read, [(read(tokens[0]).value, read(tokens[1]).value)] + walls)
  {
    var all := [(read(tokens[0]).value, read(tokens[1]).value)] + walls;
    forall k | 1 <= k < |all|
      ensures read(tokens[2 * k]).Some? && read(tokens[2 * k + 1]).Some?
      ensures all[k] == (read(tokens[2 * k]).value, read(tokens[2 * k + 1]).value)
    {
      assert all[k] == walls[k - 1];
      assert tokens[2 * k] == tokens[2..][2 * (k - 1)] && tokens[2 * k + 1] == tokens[2..][2 * (k - 1) + 1];
    }
  }

  /** When the wall loop runs to the end, the k-th wall is tokens 2k and 2k+1. */
  lemma {:induction false} ReadWallsPairs(tokens: seq<string>)
    requires ReadWalls(tokens).1
    ensures PairedWith(tokens, ParseInt, ReadWalls(tokens).0)
    decreases |tokens|
  {
    if |tokens| >= 2 {
      ReadWallsPairs(tokens[2..]);
      PairedCons(tokens, ParseInt, ReadWalls(tokens[2..]).0);
    }
  }

  /** A level parses exactly when its tokens are well formed. */
  lemma ParseLevelSpec(tokens: seq<string>)
    ensures ParseLevel(tokens).Some? <==> |tokens| >= 1 && WellFormed(tokens)
  {
    if |tokens| >= 1 {
      ReadWallsComplete(tokens[1..]);
      AllIntegersSplit(tokens, 1);
      assert AllIntegers(tokens[..1]) <==> ParseInt(tokens[0]).Some? by {
        assert tokens[..1][0] == tokens[0];
      }
    }
  }

  /**
   * In a level that parses, the size is the first token and the walls are
   * the following tokens taken two by two, in file order.
   */
  lemma ParseLevelLayout(tokens: seq<string>)
    requires ParseLevel(tokens).Some?
    ensures WellFormed(tokens)
    ensures ParseLevel(tokens).value.size == ParseInt(tokens[0]).value
    ensures |ParseLevel(tokens).value.walls| == (|tokens| - 1) / 2
    ensures forall k :: 0 <= k < (|tokens| - 1) / 2 ==>
      ParseLevel(tokens).value.walls[k] == (ParseInt(tokens[2 * k + 1]).value, ParseInt(tokens[2 * k + 2]).value)
  {
    ParseLevelSpec(tokens);
    var rest := tokens[1..];
    ReadWallsPairs(rest);
    forall k | 0 <= k < |ReadWalls(rest).0|
      ensures ParseLevel(tokens).value.walls[k] == (ParseInt(tokens[2 * k + 1]).value, ParseInt(tokens[2 * k + 2]).value)
    {
      assert rest[2 * k] == tokens[2 * k + 1] && rest[2 * k + 1] == tokens[2 * k + 2];
    }
  }

  /** A declared size below six is rejected, whatever follows it. */
  lemma SmallMapRejected(tokens: seq<string>)
    requires |tokens| >= 1 && ParseInt(tokens[0]).Some? && ParseInt(tokens[0]).value < MinSize
    ensures ParseLevel(tokens) == None
  {
  }

  /** A dangling last coordinate (an even number of tokens) is rejected. */
  lemma DanglingTokenRejected(tokens: seq<string>)
    requires |tokens| % 2 == 0
    ensures ParseLevel(tokens) == None
  {
    ParseLevelSpec(tokens);
  }

  /** A token that is not an integer, the empty one included, is rejected. */
  lemma NonIntegerRejected(tokens: seq<string>, k: nat)
    requires k < |tokens| && ParseInt(tokens[k]).None?
    ensures ParseLevel(tokens) == None
  {
    ParseLevelSpec(tokens);
  }

  /** A level file that ends in white space is rejected: its last token is empty. */
  lemma TrailingWhiteSpaceRejected(s: string, c: char)
    requires IsWhiteSpace(c)
    ensures Load(Text(s + [c])) == Failure(DataError)
  {
    var tokens := Split(s + [c]);
    TrailingSpaceGivesEmptyToken(s, c);
    NonIntegerRejected(tokens, |tokens| - 1);
  }

  /** The decimal tokens of 32-bit walls read back to those walls, and the loop runs to the end. */
  lemma {:induction false} ReadWallTokens(walls: seq<(int, int)>)
    requires forall k :: 0 <= k < |walls| ==>
      Int32Min <= walls[k].0 <= Int32Max && Int32Min <= walls[k].1 <= Int32Max
    ensures ReadWalls(WallTokens(walls)) == (walls, true)
    decreases |walls|
  {
    if walls != [] {
      var tokens := WallTokens(walls);
      ReadWallTokens(walls[1..]);
      ParseToDecimal(walls[0].0);
      ParseToDecimal(walls[0].1);
      assert tokens[0] == ToDecimal(walls[0].0) && tokens[1] == ToDecimal(walls[0].1);
      assert tokens[2..] == WallTokens(walls[1..]);
      assert [(walls[0].0, walls[0].1)] + walls[1..] == walls;
    }
  }

  /** Every storable level survives being written out and loaded back. */
  lemma LoadFormat(level: Level)
    requires Storable(level)
    ensures Load(Text(Format(level))) == Success(level)
  {
    var tokens := [ToDecimal(level.size)] + WallTokens(level.walls);
    forall k | 0 <= k < |tokens| ensures Unbroken(tokens[k]) {
      if k > 0 { WallTokensUnbroken(level.walls, k - 1); }
    }
    SplitJoin(tokens);
    ParseToDecimal(level.size);
    ReadWallTokens(level.walls);
    assert tokens[1..] == WallTokens(level.walls);
  }

  /** Every token written for the walls is free of white space. */
  lemma {:induction false} WallTokensUnbroken(walls: seq<(int, int)>, k: nat)
    requires k < |WallTokens(walls)|
    ensures Unbroken(WallTokens(walls)[k])
    decreases |walls|
  {
    if k >= 2 {
      WallTokensUnbroken(walls[1..], k - 2);
    }
  }

  // ------------------------------------------------------------- the class

  /** TextFilePersistence: the last level read, as `MapSize` and `Walls`. */
  class TextFilePersistence {
    var MapSize: int
    var Walls: seq<(int, int)>

    constructor ()
      ensures MapSize == 0 && Walls == []
    {
      MapSize := 0;
      Walls := [];
    }

    /**
     * LoadLevel: reads the level from `path`. A null path throws before
     * anything changes; otherwise `Walls` starts afresh and is filled pair by
     * pair, and every failure is a DataError that leaves behind what was
     * read until then.
     */
    method LoadLevel(path: Source) returns (fault: Option<Fault>)
      modifies this
      ensures fault == None <==> Load(path).Success?
      ensures fault.Some? ==> Load(path) == Failure(fault.value)
      ensures fault == None ==> Load(path).value == Level(MapSize, Walls)
      ensures path.NullPath? ==> MapSize == old(MapSize) && Walls == old(Walls)
      ensures path.Unreadable? ==> MapSize == old(MapSize) && Walls == []
      ensures path.Text? ==>
        var numbers := Split(path.contents);
        match ParseInt(numbers[0])
        case None => MapSize == old(MapSize) && Walls == []
        case Some(size) =>
          MapSize == size && Walls == if size < MinSize then [] else ReadWalls(numbers[1..]).0
    {
      if path.NullPath? {
        return Some(ArgumentNull);
      }
      Walls := [];
      if path.Unreadable? {
        return Some(DataError);
      }
      var numbers := Split(path.contents);
      var first := ParseInt(numbers[0]);
      if first.None? {
        return Some(DataError);
      }
      MapSize := first.value;
      if MapSize < MinSize {
        return Some(DataError);
      }
      var ok := ReadPairs(numbers);
      if !ok {
        return Some(DataError);
      }
      return None;
    }

    /**
     * The loop of LoadLevel: the tokens after the size, two at a time, each
     * pair appended to `Walls` as it is read; false at the first token that
     * is not an integer or that has no partner.
     */
    method ReadPairs(numbers: seq<string>) returns (ok: bool)
      requires |numbers| >= 1 && Walls == []
      modifies this`Walls
      ensures (Walls, ok) == ReadWalls(numbers[1..])
    {
      var i := 1;
      assert Walls + ReadWalls(numbers[i..]).0 == ReadWalls(numbers[1..]).0;
      while i < |numbers|
        invariant 1 <= i <= |numbers|
        invariant ReadWalls(numbers[1..]) == (Walls + ReadWalls(numbers[i..]).0, ReadWalls(numbers[i..]).1)
        decreases |numbers| - i
      {
        var x := ParseInt(numbers[i]);
        if x.None? || i + 1 >= |numbers| {
          assert numbers[i..][0] == numbers[i];
          assert ReadWalls(numbers[i..]) == ([], false);
          assert Walls + [] == Walls;
          return false;
        }
        var y := ParseInt(numbers[i + 1]);
        if y.None? {
          assert numbers[i..][0] == numbers[i] && numbers[i..][1] == numbers[i + 1];
          assert ReadWalls(numbers[i..]) == ([], false);
          assert Walls + [] == Walls;
          return false;
        }
        ghost var rest := ReadWalls(numbers[i + 2..]);
        assert numbers[i..][0] == numbers[i] && numbers[i..][1] == numbers[i + 1];
        assert numbers[i..][2..] == numbers[i + 2..];
        assert ReadWalls(numbers[i..]) == ([(x.value, y.value)] + rest.0, rest.1);
        assert (Walls + [(x.value, y.value)]) + rest.0 == Walls + ([(x.value, y.value)] + rest.0);
        Walls := Walls + [(x.value, y.value)];
        i := i + 2;
      }
      assert numbers[i..] == [];
      assert Walls + [] == Walls;
      return true;
    }
  }
}
