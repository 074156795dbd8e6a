/** The tetromino catalog: the seven playable kinds plus the BLANK sentinel
    that doubles as the empty grid cell, their rotation tables and their
    colour tags. */
module Catalog {

  datatype Option<T> = None | Some(value: T)

  /** Declared in the order of its integer representation 0..7. */
  datatype Kind = I | O | T | S | Z | J | L | Blank

  /** Colour tags; the concrete RGB values belong to rendering. */
  datatype Color = Cyan | Yellow | Purple | Green | Red | Blue | Orange | Background

  /** A relative cell offset (row delta, column delta). */
  type Offset = (int, int)

  /** Conversion from the enum's integer representation; anything outside
      0..7 is an error. */
  function TryFrom(n: int): (r: Option<Kind>)
    ensures r.Some? <==> 0 <= n <= 7
    ensures r == Some(Blank) <==> n == 7
  {
    if n == 0 then Some(I)
    else if n == 1 then Some(O)
    else if n == 2 then Some(T)
    else if n == 3 then Some(S)
    else if n == 4 then Some(Z)
    else if n == 5 then Some(J)
    else if n == 6 then Some(L)
    else if n == 7 then Some(Blank)
    else None
  }

  /** The kind a spawn draws from a roll: the conversion, with BLANK as the
      fallback on error. Rolls 0..6 give exactly the playable kinds. */
  function SpawnKind(roll: int): (k: Kind)
    ensures k == Blank <==> !(0 <= roll < 7)
  {
    match TryFrom(roll)
    case Some(t) => t
    case None => Blank
  }

  /** Every playable kind is drawn by some roll in 0..6. */
  lemma SpawnCoversPlayable(p: Kind)
    requires p != Blank
    ensures exists n :: 0 <= n < 7 && SpawnKind(n) == p
  {
    var n := match p
      case I => 0 case O => 1 case T => 2 case S => 3
      case Z => 4 case J => 5 case L => 6;
    assert SpawnKind(n) == p;
  }

  /** The colour tag of each kind. */
  function GenerateColor(k: Kind): (c: Color)
    ensures c == Background <==> k == Blank
  {
    match k
    case I => Cyan
    case O => Yellow
    case T => Purple
    case S => Green
    case Z => Red
    case J => Blue
    case L => Orange
    case Blank => Background
  }

  /** The four rotation states of a kind, each four (row, column) offsets
      relative to the piece's anchor. */
  function GeneratePositions(k: Kind): (r: seq<seq<Offset>>)
    ensures |r| == 4
    ensures forall s :: 0 <= s < 4 ==> |r[s]| == 4
    ensures forall s, i :: 0 <= s < 4 && 0 <= i < 4 ==>
              -2 <= r[s][i].0 <= 1 && -2 <= r[s][i].1 <= 1
  {
    match k
    case I =>
      [ [(-1, -2), (-1, -1), (-1, 0), (-1, 1)],
        [(-2, 0), (-1, 0), (0, 0), (1, 0)],
        [(0, -2), (0, -1), (0, 0), (0, 1)],
        [(-2, -1), (-1, -1), (0, -1), (1, -1)] ]
    case O =>
      [ [(-1, -2), (-2, -2), (-1, -1), (-2, -1)],
        [(-1, -2), (-2, -2), (-1, -1), (-2, -1)],
        [(-1, -2), (-2, -2), (-1, -1), (-2, -1)],
        [(-1, -2), (-2, -2), (-1, -1), (-2, -1)] ]
    case T =>
      [ [(-1, -2), (-1, -1), (-2, -1), (-1, 0)],
        [(-2, -1), (-1, -1), (0, -1), (-1, 0)],
        [(-1, -2), (-1, -1), (0, -1), (-1, 0)],
        [(-1, -2), (-2, -1), (-1, -1), (0, -1)] ]
    case S =>
      [ [(-1, -2), (-1, -1), (-2, -1), (-2, 0)],
        [(-2, -1), (-1, -1), (-1, 0), (0, 0)],
        [(0, -2), (0, -1), (-1, -1), (-1, 0)],
        [(-2, -2), (-1, -2), (-1, -1), (0, -1)] ]
    case Z =>
      [ [(-2, -2), (-2, -1), (-1, -1), (-1, 0)],
        [(0, -1), (-1, -1), (-1, 0), (-2, 0)],
        [(-1, -2), (-1, -1), (0, -1), (0, 0)],
        [(0, -2), (-1, -2), (-1, -1), (-2, -1)] ]
    case J =>
      [ [(-2, -2), (-1, -2), (-1, -1), (-1, 0)],
        [(0, -1), (-1, -1), (-2, -1), (-2, 0)],
        [(-1, -2), (-1, -1), (-1, 0), (0, 0)],
        [(0, -2), (0, -1), (-1, -1), (-2, -1)] ]
    case L =>
      [ [(-1, -2), (-1, -1), (-1, 0), (-2, 0)],
        [(-2, -1), (-1, -1), (0, -1), (0, 0)],
        [(0, -2), (-1, -2), (-1, -1), (-1, 0)],
        [(-2, -2), (-2, -1), (-1, -1), (0, -1)] ]
    case Blank =>
      [ [(0, 0), (0, 0), (0, 0), (0, 0)],
        [(0, 0), (0, 0), (0, 0), (0, 0)],
        [(0, 0), (0, 0), (0, 0), (0, 0)],
        [(0, 0), (0, 0), (0, 0), (0, 0)] ]
  }

  /** No two offsets of one rotation state coincide. */
  predicate Distinct(offsets: seq<Offset>)
  {
    forall i, j :: 0 <= i < j < |offsets| ==> offsets[i] != offsets[j]
  }

  /** Every playable kind occupies four different cells in every state. */
  lemma PlayableStatesDistinct(k: Kind, s: int)
    requires k != Blank && 0 <= s < 4
    ensures Distinct(GeneratePositions(k)[s])
  {
    var st := GeneratePositions(k)[s];
    forall i, j | 0 <= i < j < 4 ensures st[i] != st[j] {
      match k
      case I =>
      case O =>
      case T =>
      case S =>
      case Z =>
      case J =>
      case L =>
    }
  }

  /** BLANK is four zero offsets in every state, and O is rotation-invariant. */
  lemma DegenerateTables(s: int)
    requires 0 <= s < 4
    ensures forall i :: 0 <= i < 4 ==> GeneratePositions(Blank)[s][i] == (0, 0)
    ensures GeneratePositions(O)[s] == GeneratePositions(O)[0]
  {
  }

  /** The seven playable kinds have seven different colours, none of which is
      the background; BLANK is drawn in the background colour. */
  lemma ColorsDistinct(a: Kind, b: Kind)
    ensures GenerateColor(a) == GenerateColor(b) ==> a == b
    ensures GenerateColor(a) == Background <==> a == Blank
  {
  }
}
