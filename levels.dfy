/** The level choice of new_game: the answer typed into the dialog becomes
    a level from 1 to 10 (9 when the answer is anything else), and the
    level fixes the size of the board and the number of pokemon. */
module Levels {
  import opened Board

  datatype Option<T> = None | Some(value: T)

  /** str(k) for a level: the decimal digits of k. */
  function LevelText(k: int): (t: string)
    requires 1 <= k <= 10
    ensures 1 <= |t| <= 2
    ensures forall i | 0 <= i < |t| :: '0' <= t[i] <= '9'
  {
    if k == 10 then "10" else [('0' as int + k) as char]
  }

  /** Different levels are written differently. */
  lemma LevelTextInjective(j: int, k: int)
    requires 1 <= j <= 10 && 1 <= k <= 10 && LevelText(j) == LevelText(k)
    ensures j == k
  {
    if j == 10 || k == 10 {
      assert |LevelText(j)| == |LevelText(k)|;
    } else {
      assert LevelText(j)[0] == LevelText(k)[0];
    }
  }

  /** The first level from k to 10 whose text is s, scanning the list
      [str(i) for i in range(1, 11)] from position k on. */
  function FindLevel(s: string, k: int): (r: Option<int>)
    requires 1 <= k
    ensures r.Some? ==> k <= r.value <= 10 && LevelText(r.value) == s
    ensures r.None? ==> forall j | k <= j <= 10 :: LevelText(j) != s
    decreases 11 - k
  {
    if k > 10 then None
    else if s == LevelText(k) then Some(k)
    else FindLevel(s, k + 1)
  }

  /** The level new_game settles on. The dialog answer is None when it is
      cancelled. */
  function ChooseLevel(answer: Option<string>): (level: int)
    ensures 1 <= level <= 10
    ensures (exists k | 1 <= k <= 10 :: answer == Some(LevelText(k))) <==> answer == Some(LevelText(level))
    ensures !(exists k | 1 <= k <= 10 :: answer == Some(LevelText(k))) ==> level == 9
  {
    match answer
    case None => 9
    case Some(s) =>
      match FindLevel(s, 1)
      case Some(k) => k
      case None => 9
  }

  /** Typing a level gives that level back. */
  lemma ChooseTypedLevel(k: int)
    requires 1 <= k <= 10
    ensures ChooseLevel(Some(LevelText(k))) == k
  {
    LevelTextInjective(k, ChooseLevel(Some(LevelText(k))));
  }

  /** BoardModel(1 + level, 2 * level): grid size and number of pokemon. */
  function NewGameSize(level: int): (r: (nat, nat))
    requires 1 <= level <= 10
    ensures 2 <= r.0 <= 11 && r.1 == 2 * (r.0 - 1)
  {
    (1 + level, 2 * level)
  }

  /** The indices 0, 1, ..., m - 1 in order. */
  function FirstIndices(m: nat): (r: seq<int>)
    ensures |r| == m && forall i | 0 <= i < m :: r[i] == i
  {
    if m == 0 then [] else FirstIndices(m - 1) + [m - 1]
  }

  /** For every level the pokemon fit on the board, so the random sample
      that __init__ draws always exists: for instance the first 2 * level
      indices are a valid placement on a board of side 1 + level. */
  lemma NewGameFits(level: int)
    requires 1 <= level <= 10
    ensures var (n, m) := NewGameSize(level);
            m <= n * n && ValidPlacement(n, FirstIndices(m))
  {
    var (n, m) := NewGameSize(level);
    assert n * n == m + level * level + 1;
  }
}
