/** From a declaring-class descriptor to the list of names that the report's
    tree is keyed by (DexMethodCounts.generate, the name and split steps). */
module DexNames {

  /** The two conversions of the dex reader's Output class that generate uses.
      They belong to the dex reader and are given, not modelled. */
  datatype Naming = Naming(descriptorToDot: string -> string, packageNameOnly: string -> string)

  /** String.replace(char, char): every occurrence of `from` becomes `to`. */
  function ReplaceChar(s: string, from: char, to: char): (r: string)
    ensures |r| == |s|
    ensures forall i :: 0 <= i < |s| ==> r[i] == (if s[i] == from then to else s[i])
  {
    if s == [] then [] else [if s[0] == from then to else s[0]] + ReplaceChar(s[1..], from, to)
  }

  /** The dotted name a reference is counted under: with classes, the dotted
      class name with nested-class '$' turned into '.'; without, the package only. */
  function PackageName(classDescriptor: string, includeClasses: bool, naming: Naming): (name: string)
    ensures includeClasses ==> '$' !in name
    ensures includeClasses ==> |name| == |naming.descriptorToDot(classDescriptor)|
    ensures includeClasses ==>
              var dotted := naming.descriptorToDot(classDescriptor);
              forall i :: 0 <= i < |dotted| ==> name[i] == (if dotted[i] == '$' then '.' else dotted[i])
    ensures !includeClasses ==> name == naming.packageNameOnly(classDescriptor)
  {
    if includeClasses then ReplaceChar(naming.descriptorToDot(classDescriptor), '$', '.')
    else naming.packageNameOnly(classDescriptor)
  }

  /** The pieces between the dots, all of them, empty ones included: a string
      with k dots has k + 1 pieces. */
  function Segments(s: string): (pieces: seq<string>)
    ensures |pieces| >= 1
    ensures forall i :: 0 <= i < |pieces| ==> '.' !in pieces[i]
  {
    if s == [] then [""]
    else
      var rest := Segments(s[1..]);
      if s[0] == '.' then [""] + rest
      else [[s[0]] + rest[0]] + rest[1..]
  }

  /** The pieces joined back with dots. */
  function JoinDots(pieces: seq<string>): string
    requires |pieces| >= 1
  {
    if |pieces| == 1 then pieces[0] else pieces[0] + "." + JoinDots(pieces[1..])
  }

  /** Joining the pieces gives back the string. */
  lemma {:induction false} JoinSegments(s: string)
    ensures JoinDots(Segments(s)) == s
  {
    if s != [] {
      var rest := Segments(s[1..]);
      JoinSegments(s[1..]);
      if s[0] != '.' && |rest| > 1 {
        assert rest == [rest[0]] + rest[1..];
      }
    }
  }

  /** A piece without dots followed by a dot starts a new piece. */
  lemma {:induction false} SegmentsOfPiece(piece: string, tail: string)
    requires '.' !in piece
    ensures Segments(piece) == [piece]
    ensures Segments(piece + "." + tail) == [piece] + Segments(tail)
  {
    if piece != [] {
      SegmentsOfPiece(piece[1..], tail);
      assert (piece + "." + tail)[1..] == piece[1..] + "." + tail;
      assert [piece[0]] + piece[1..] == piece;
    } else {
      assert piece + "." + tail == ['.'] + tail;
      assert (['.'] + tail)[1..] == tail;
    }
  }

  /** Splitting a dot-join of dot-free pieces gives back the pieces. */
  lemma {:induction false} SegmentsOfJoin(pieces: seq<string>)
    requires |pieces| >= 1
    requires forall i :: 0 <= i < |pieces| ==> '.' !in pieces[i]
    ensures Segments(JoinDots(pieces)) == pieces
  {
    SegmentsOfPiece(pieces[0], if |pieces| == 1 then "" else JoinDots(pieces[1..]));
    if |pieces| > 1 {
      SegmentsOfJoin(pieces[1..]);
      assert pieces == [pieces[0]] + pieces[1..];
    }
  }

  /** The pieces without the empty ones at the end. */
  function DropTrailingEmpty(pieces: seq<string>): (r: seq<string>)
    ensures r <= pieces
    ensures r == [] || r[|r| - 1] != ""
    ensures forall i :: |r| <= i < |pieces| ==> pieces[i] == ""
  {
    if pieces == [] || pieces[|pieces| - 1] != "" then pieces
    else DropTrailingEmpty(pieces[..|pieces| - 1])
  }

  /** String.split("\\.") with no limit: when there is no dot the string itself
      is the one piece (even when it is empty); otherwise the pieces between the
      dots with the empty pieces at the end dropped. */
  function SplitOnDots(s: string): (pieces: seq<string>)
  {
    if '.' !in s then [s] else DropTrailingEmpty(Segments(s))
  }

  /** What split keeps of the pieces between the dots: a leading run of them,
      dropping only empty pieces, and the last one kept is not empty unless the
      string has no dot at all. */
  lemma SplitOnDotsKeepsSegments(s: string)
    ensures SplitOnDots(s) <= Segments(s)
    ensures forall i :: |SplitOnDots(s)| <= i < |Segments(s)| ==> Segments(s)[i] == ""
    ensures forall i :: 0 <= i < |SplitOnDots(s)| ==> '.' !in SplitOnDots(s)[i]
    ensures '.' !in s ==> SplitOnDots(s) == [s]
    ensures '.' in s && SplitOnDots(s) != [] ==> SplitOnDots(s)[|SplitOnDots(s)| - 1] != ""
  {
    if '.' !in s {
      SegmentsOfPiece(s, "");
    }
  }
}
