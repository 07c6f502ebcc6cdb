/**
 * The pure decision rules of the editor's controller: which supported
 * resolution an imported image is given, and which image format a file name
 * selects on export.
 */
module JaintRules {
  import opened Wrappers
  import opened Sprite

  function Abs(i: int): nat {
    if i < 0 then -i else i
  }

  /**
   * The resolution an image of the given size is imported at. Starting from
   * x16, it moves to x32 when the average side is strictly closer to 32 than to 16,
   * then to x64 when it is strictly closer to 64 than to 32. Both sides of each
   * comparison are doubled, so twice the average is the integer width + height.
   */
  function NearestResolution(width: nat, height: nat): (d: SpriteDimensions)
    ensures d == x16 <==> width + height <= 48
    ensures d == x32 <==> 48 < width + height <= 96
    ensures d == x64 <==> 96 < width + height
  {
    var twiceAverage := width + height;
    var first := if Abs(twiceAverage - 64) < Abs(twiceAverage - 32) then x32 else x16;
    if Abs(twiceAverage - 128) < Abs(twiceAverage - 64) then x64 else first
  }

  /**
   * The chosen side is a nearest supported side to the average, and on a tie it
   * is the smaller one.
   */
  lemma NearestResolutionIsNearest(width: nat, height: nat, other: SpriteDimensions)
    ensures Abs(2 * Side(NearestResolution(width, height)) - (width + height))
            <= Abs(2 * Side(other) - (width + height))
    ensures Abs(2 * Side(NearestResolution(width, height)) - (width + height))
            == Abs(2 * Side(other) - (width + height))
            ==> Side(NearestResolution(width, height)) <= Side(other)
  {
  }

  /** An image whose sides already have a supported size keeps that size. */
  lemma NearestResolutionOfSupportedSize(d: SpriteDimensions)
    ensures NearestResolution(Side(d), Side(d)) == d
  {
  }

  /**
   * The dot-separated pieces of s, empty ones included, in order: what
   * splitting on "." yields before trailing empty strings are dropped.
   */
  function Pieces(s: string): (pieces: seq<string>)
    ensures |pieces| >= 1
    decreases |s|
  {
    if s == [] then [[]]
    else
      var rest := Pieces(s[1..]);
      assert s == [s[0]] + s[1..];
      if s[0] == '.' then [[]] + rest
      else [[s[0]] + rest[0]] + rest[1..]
  }

  /** A string without a dot is a single piece. */
  lemma {:induction false} PiecesOfPlain(s: string)
    requires '.' !in s
    ensures Pieces(s) == [s]
    decreases |s|
  {
    if s != [] {
      assert s == [s[0]] + s[1..];
      PiecesOfPlain(s[1..]);
    }
  }

  /** No piece contains a dot. */
  lemma {:induction false} PiecesHaveNoDot(s: string)
    ensures forall i :: 0 <= i < |Pieces(s)| ==> '.' !in Pieces(s)[i]
    decreases |s|
  {
    if s != [] {
      PiecesHaveNoDot(s[1..]);
      var rest := Pieces(s[1..]);
      if s[0] != '.' {
        assert '.' !in [s[0]] + rest[0];
      }
    }
  }

  /** The pieces put back together with a "." between each two. */
  function Join(pieces: seq<string>): string
    requires |pieces| >= 1
    decreases |pieces|
  {
    if |pieces| == 1 then pieces[0] else pieces[0] + "." + Join(pieces[1..])
  }

  /** Splitting loses nothing: joining the pieces gives the string back. */
  lemma {:induction false} JoinPieces(s: string)
    ensures Join(Pieces(s)) == s
    decreases |s|
  {
    if s != [] {
      var rest := Pieces(s[1..]);
      JoinPieces(s[1..]);
      assert s == [s[0]] + s[1..];
      if s[0] != '.' && |rest| > 1 {
        assert Pieces(s)[1..] == rest[1..];
      }
    }
  }

  /** A string of dots only splits into empty pieces. */
  lemma {:induction false} PiecesOfDots(s: string)
    requires forall i :: 0 <= i < |s| ==> s[i] == '.'
    ensures forall i :: 0 <= i < |Pieces(s)| ==> Pieces(s)[i] == []
    decreases |s|
  {
    if s != [] {
      PiecesOfDots(s[1..]);
    }
  }

  /** Joining empty pieces gives a string of dots only. */
  lemma {:induction false} JoinOfEmpties(pieces: seq<string>)
    requires |pieces| >= 1
    requires forall i :: 0 <= i < |pieces| ==> pieces[i] == []
    ensures forall i :: 0 <= i < |Join(pieces)| ==> Join(pieces)[i] == '.'
    decreases |pieces|
  {
    if |pieces| > 1 {
      JoinOfEmpties(pieces[1..]);
      assert Join(pieces) == "." + Join(pieces[1..]);
    }
  }

  /** Java's split with limit 0 drops every trailing empty string. */
  function DropTrailingEmpty(pieces: seq<string>): (kept: seq<string>)
    ensures |kept| <= |pieces| && kept == pieces[..|kept|]
    ensures kept == [] || kept[|kept| - 1] != []
    ensures forall i :: |kept| <= i < |pieces| ==> pieces[i] == []
    decreases |pieces|
  {
    if pieces == [] || pieces[|pieces| - 1] != [] then pieces
    else DropTrailingEmpty(pieces[..|pieces| - 1])
  }

  /**
   * String.split("\\.") in Java: a string without a dot splits into itself
   * (so "" gives [""]); otherwise the pieces, trailing empty ones dropped.
   */
  function JavaSplit(s: string): (split: seq<string>)
    ensures '.' !in s ==> split == [s]
    ensures |split| <= |Pieces(s)| && split == Pieces(s)[..|split|]
    ensures forall i :: |split| <= i < |Pieces(s)| ==> Pieces(s)[i] == []
    ensures '.' in s ==> split == [] || split[|split| - 1] != []
    ensures forall i :: 0 <= i < |split| ==> '.' !in split[i]
  {
    PiecesHaveNoDot(s);
    if '.' !in s then PiecesOfPlain(s); [s] else DropTrailingEmpty(Pieces(s))
  }

  /**
   * The image format an export to fileName asks for: the last element of the
   * split name. None when the split is empty, where indexing it throws.
   */
  function ExportFormat(fileName: string): (format: Option<string>)
    ensures format.Some? ==> '.' !in format.value
    ensures '.' !in fileName ==> format == Some(fileName)
  {
    var split := JavaSplit(fileName);
    if |split| == 0 then None else Some(split[|split| - 1])
  }

  /** The split is empty, and there is no format, exactly for a name of dots only. */
  lemma ExportFormatMissing(fileName: string)
    ensures ExportFormat(fileName) == None <==>
            |fileName| > 0 && forall i :: 0 <= i < |fileName| ==> fileName[i] == '.'
  {
    if |fileName| > 0 && forall i :: 0 <= i < |fileName| ==> fileName[i] == '.' {
      assert fileName[0] == '.';
      PiecesOfDots(fileName);
    }
    if ExportFormat(fileName) == None {
      assert '.' in fileName;
      var pieces := Pieces(fileName);
      assert DropTrailingEmpty(pieces) == [];
      JoinOfEmpties(pieces);
      JoinPieces(fileName);
    }
  }

  /**
   * In a name with a dot, the format is the last non-empty dot-separated piece:
   * every piece after it is empty.
   */
  lemma ExportFormatIsLastPiece(fileName: string)
    requires '.' in fileName && ExportFormat(fileName).Some?
    ensures ExportFormat(fileName).value != []
    ensures exists k :: 0 <= k < |Pieces(fileName)|
              && Pieces(fileName)[k] == ExportFormat(fileName).value
              && forall j :: k < j < |Pieces(fileName)| ==> Pieces(fileName)[j] == []
  {
    var pieces := Pieces(fileName);
    var kept := DropTrailingEmpty(pieces);
    var k := |kept| - 1;
    assert pieces[k] == kept[k];
  }

  /** Splitting at one dot: the pieces before it, then the pieces after it. */
  lemma {:induction false} PiecesAround(a: string, b: string)
    ensures Pieces(a + "." + b) == Pieces(a) + Pieces(b)
    decreases |a|
  {
    var s := a + "." + b;
    if a == [] {
      assert s[0] == '.' && s[1..] == b;
    } else {
      var t := a[1..] + "." + b;
      assert s[0] == a[0] && s[1..] == t;
      assert a[1..] == a[1..];
      PiecesAround(a[1..], b);
      var front, back := Pieces(a[1..]), Pieces(b);
      if a[0] == '.' {
        assert Pieces(s) == [[]] + (front + back);
      } else {
        var both := front + back;
        assert Pieces(s) == [[a[0]] + both[0]] + both[1..];
        assert both[0] == front[0];
        assert both[1..] == front[1..] + back;
        assert Pieces(a) == [[a[0]] + front[0]] + front[1..];
      }
    }
  }

  /** A name ending in a dot and a non-empty, dot-free extension exports as that extension. */
  lemma ExportFormatOfExtension(base: string, extension: string)
    requires extension != [] && '.' !in extension
    ensures ExportFormat(base + "." + extension) == Some(extension)
  {
    var name := base + "." + extension;
    PiecesAround(base, extension);
    PiecesOfPlain(extension);
    assert name[|base|] == '.';
    var pieces := Pieces(name);
    assert pieces[|pieces| - 1] == extension;
    assert JavaSplit(name) == pieces;
  }

  /** "a.b.png" exports as "png". */
  lemma ExportFormatOfDottedName()
    ensures ExportFormat("a.b.png") == Some("png")
  {
    assert "a.b" + "." + "png" == "a.b.png";
    ExportFormatOfExtension("a.b", "png");
  }

  /** A trailing dot is ignored: base.extension. exports as extension. */
  lemma ExportFormatOfTrailingDot(base: string, extension: string)
    requires extension != [] && '.' !in extension
    ensures ExportFormat(base + "." + extension + ".") == Some(extension)
  {
    var stem := base + "." + extension;
    var name := stem + "." + "";
    assert name == stem + ".";
    PiecesAround(base, extension);
    PiecesOfPlain(extension);
    PiecesAround(stem, "");
    assert Pieces("") == [""];
    assert name[|stem|] == '.';
    var pieces := Pieces(name);
    assert pieces == Pieces(stem) + [""];
    assert pieces[..|pieces| - 1] == Pieces(stem);
    assert DropTrailingEmpty(pieces) == DropTrailingEmpty(Pieces(stem)) == Pieces(stem);
  }

  /** A name without a dot is its own format, the empty name included; a name of dots has none. */
  lemma ExportFormatOfPlainNames()
    ensures ExportFormat("sprite") == Some("sprite")
    ensures ExportFormat("") == Some("")
    ensures ExportFormat("..") == None
  {
    ExportFormatMissing("..");
  }
}
