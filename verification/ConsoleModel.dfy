/** A terminal as con_write in kernel/chr_drv/console.c interprets its input: a plain
    screen, a cursor and a scrolling region, and nothing about video hardware. */
module ConsoleModel {

  const LINES: int := 25
  const NPAR: int := 16
  const ERASED: int := 0x0720

  /** `screen` is LINES rows of `cols` cells, a cell being character and attribute. */
  datatype Term = Term(cols: nat, screen: seq<int>, x: int, y: int, top: int, bottom: int,
                       state: int, ques: bool, npar: int, par: seq<int>, attr: int, savedX: int, savedY: int)

  /** Start of row r. */
  function Row(cols: nat, r: nat): nat {
    r * cols
  }

  lemma RowLe(cols: nat, r: nat, s: nat)
    requires r <= s
    ensures Row(cols, r) <= Row(cols, s)
    ensures r < s ==> Row(cols, r) + cols <= Row(cols, s)
  {
    if r < s {
      assert (s - r - 1) * cols >= 0;
    }
  }

  lemma RowNext(cols: nat, r: nat)
    ensures Row(cols, r + 1) == Row(cols, r) + cols && Row(cols, 0) == 0
  {
  }

  predicate Ok(t: Term) {
    && t.cols >= 8 && t.cols % 2 == 0 && |t.screen| == Row(t.cols, LINES)
    && 0 <= t.x <= t.cols && 0 <= t.y < LINES && 0 <= t.top < t.bottom <= LINES
    && 0 <= t.state <= 3 && 0 <= t.npar < NPAR && |t.par| == NPAR
      && (forall k :: 0 <= k < NPAR ==> 0 <= t.par[k] < 0x1_0000_0000)
    && t.savedX >= 0 && t.savedY >= 0
  }

  function Blanks(n: nat): seq<int> {
    seq(n, _ => ERASED)
  }

  /** Cells a..b move up by n, the last n of them are erased. */
  function UpAt(s: seq<int>, n: nat, a: nat, b: nat): (r: seq<int>)
    requires a + n <= b <= |s|
    ensures |r| == |s|
  {
    seq(|s|, i requires 0 <= i < |s| && a + n <= b <= |s| =>
      if a <= i < b - n then s[i + n] else if b - n <= i < b then ERASED else s[i])
  }

  /** Cells a..b move down by n, the first n of them are erased. */
  function DownAt(s: seq<int>, n: nat, a: nat, b: nat): (r: seq<int>)
    requires a + n <= b <= |s|
    ensures |r| == |s|
  {
    seq(|s|, i requires 0 <= i < |s| && a + n <= b <= |s| =>
      if a <= i < a + n then ERASED else if a + n <= i < b then s[i - n] else s[i])
  }

  /** Rows top..bottom move up one, the last of them is erased. */
  function Up(s: seq<int>, cols: nat, top: nat, bottom: nat): (r: seq<int>)
    requires top < bottom <= LINES && |s| == Row(cols, LINES)
    ensures |r| == |s|
  {
    RowLe(cols, top, bottom); RowLe(cols, bottom, LINES);
    UpAt(s, cols, Row(cols, top), Row(cols, bottom))
  }

  /** Rows top..bottom move down one, the first of them is erased. */
  function Down(s: seq<int>, cols: nat, top: nat, bottom: nat): (r: seq<int>)
    requires top < bottom <= LINES && |s| == Row(cols, LINES)
    ensures |r| == |s|
  {
    RowLe(cols, top, bottom); RowLe(cols, bottom, LINES);
    DownAt(s, cols, Row(cols, top), Row(cols, bottom))
  }

  function RowOf(s: seq<int>, cols: nat, r: nat): seq<int>
    requires r < LINES && |s| == Row(cols, LINES)
  {
    RowLe(cols, r, LINES);
    s[Row(cols, r)..Row(cols, r) + cols]
  }

  /** Where row r lies with respect to rows top and bottom. */
  lemma Rows(cols: nat, top: nat, bottom: nat, r: nat)
    requires top < bottom <= LINES && r < LINES
    ensures Row(cols, top + 1) == Row(cols, top) + cols <= Row(cols, bottom) == Row(cols, bottom - 1) + cols
    ensures Row(cols, bottom) <= Row(cols, LINES) && Row(cols, r + 1) == Row(cols, r) + cols <= Row(cols, LINES)
    ensures r < top ==> Row(cols, r) + cols <= Row(cols, top)
    ensures r >= bottom ==> Row(cols, bottom) <= Row(cols, r)
    ensures top <= r < bottom - 1 ==> Row(cols, top) <= Row(cols, r) <= Row(cols, bottom) - 2 * cols
    ensures top < r < bottom ==> Row(cols, top) + cols <= Row(cols, r) <= Row(cols, bottom) - cols
    ensures top < r < bottom ==> Row(cols, r - 1) == Row(cols, r) - cols
  {
    RowNext(cols, top); RowNext(cols, bottom - 1); RowNext(cols, r);
    RowLe(cols, top + 1, bottom); RowLe(cols, bottom, LINES); RowLe(cols, r + 1, LINES);
    if r < top {
      RowLe(cols, r, top);
    } else if r >= bottom {
      RowLe(cols, bottom, r);
    } else {
      RowLe(cols, top, r);
      RowLe(cols, r, bottom - 1);
      if r > top {
        RowNext(cols, r - 1);
      }
    }
  }

  lemma Slice(s: seq<int>, p: nat, n: nat, k: nat)
    requires p + n <= |s| && k < n
    ensures s[p..p + n][k] == s[p + k]
  {
  }

  lemma UpSlice(s: seq<int>, n: nat, a: nat, b: nat, p: nat)
    requires a + n <= b <= |s| && p + n <= |s|
    ensures p + n <= a || p >= b ==> UpAt(s, n, a, b)[p..p + n] == s[p..p + n]
    ensures a <= p <= b - 2 * n ==> UpAt(s, n, a, b)[p..p + n] == s[p + n..p + 2 * n]
    ensures p == b - n ==> UpAt(s, n, a, b)[p..p + n] == Blanks(n)
  {
  }

  lemma DownSlice(s: seq<int>, n: nat, a: nat, b: nat, p: nat)
    requires a + n <= b <= |s| && p + n <= |s|
    ensures p + n <= a || p >= b ==> DownAt(s, n, a, b)[p..p + n] == s[p..p + n]
    ensures a + n <= p <= b - n ==> DownAt(s, n, a, b)[p..p + n] == s[p - n..p]
    ensures p == a ==> DownAt(s, n, a, b)[p..p + n] == Blanks(n)
  {
  }

  /** Row by row, what scrolling up means. */
  lemma UpRows(s: seq<int>, cols: nat, top: nat, bottom: nat, r: nat)
    requires top < bottom <= LINES && |s| == Row(cols, LINES) && r < LINES
    ensures RowOf(Up(s, cols, top, bottom), cols, r) ==
            if r < top || r >= bottom then RowOf(s, cols, r) else if r == bottom - 1 then Blanks(cols)
              else RowOf(s, cols, r + 1)
  {
    Rows(cols, top, bottom, r);
    UpSlice(s, cols, Row(cols, top), Row(cols, bottom), Row(cols, r));
    hide Row, UpAt;
  }

  lemma DownRows(s: seq<int>, cols: nat, top: nat, bottom: nat, r: nat)
    requires top < bottom <= LINES && |s| == Row(cols, LINES) && r < LINES
    ensures RowOf(Down(s, cols, top, bottom), cols, r) ==
            if r < top || r >= bottom then RowOf(s, cols, r) else if r == top then Blanks(cols)
              else RowOf(s, cols, r - 1)
  {
    Rows(cols, top, bottom, r);
    DownSlice(s, cols, Row(cols, top), Row(cols, bottom), Row(cols, r));
    hide Row, DownAt;
  }

  // ---- single operations ----

  function Offset(t: Term): (p: nat)
    requires Ok(t)
    ensures p <= |t.screen| && (t.x < t.cols ==> p < |t.screen|)
  {
    RowLe(t.cols, t.y, LINES);
    Row(t.cols, t.y) + t.x
  }

  function Fill(s: seq<int>, from: nat, to: nat): (r: seq<int>)
    requires from <= to <= |s|
    ensures |r| == |s|
  {
    seq(|s|, i requires 0 <= i < |s| => if from <= i < to then ERASED else s[i])
  }

  function Lf(t: Term): (r: Term)
    requires Ok(t)
    ensures Ok(r) && r.x == t.x && r.y >= t.y
  {
    if t.y + 1 < t.bottom then t.(y := t.y + 1) else t.(screen := Up(t.screen, t.cols, t.top, t.bottom))
  }

  function Ri(t: Term): (r: Term)
    requires Ok(t)
    ensures Ok(r)
  {
    if t.y > t.top then t.(y := t.y - 1) else t.(screen := Down(t.screen, t.cols, t.top, t.bottom))
  }

  function Print(t: Term, c: int): (r: Term)
    requires Ok(t)
    ensures Ok(r)
  {
    var u := if t.x >= t.cols then Lf(t.(x := t.x - t.cols)) else t;
    u.(screen := u.screen[Offset(u) := u.attr * 256 + c], x := u.x + 1)
  }

  function Tab(t: Term): (r: Term)
    requires Ok(t)
    ensures Ok(r)
  {
    var x := t.x + 8 - t.x % 8;
    if x > t.cols then Lf(t.(x := x - t.cols)) else t.(x := x)
  }

  function Del(t: Term): (r: Term)
    requires Ok(t)
    ensures Ok(r)
  {
    if t.x == 0 then t
    else
      var u := t.(x := t.x - 1);
      u.(screen := u.screen[Offset(u) := ERASED])
  }

  /** Unsigned 32-bit arithmetic. */
  function U32(n: int): (r: int)
    ensures 0 <= r < 0x1_0000_0000
  {
    n % 0x1_0000_0000
  }

  function Goto(t: Term, x: int, y: int): (r: Term)
    requires Ok(t)
    ensures Ok(r)
  {
    if U32(x) > t.cols || U32(y) >= LINES then t else t.(x := U32(x), y := U32(y))
  }

  function Save(t: Term): (r: Term)
    requires Ok(t)
    ensures Ok(r)
  {
    t.(savedX := t.x, savedY := t.y)
  }

  function EraseDisplay(t: Term, par: int): (r: Term)
    requires Ok(t)
    ensures Ok(r)
  {
    if par == 0 then t.(screen := Fill(t.screen, Offset(t), |t.screen|))
    else if par == 1 then t.(screen := Fill(t.screen, 0, Offset(t)))
    else if par == 2 then t.(screen := Blanks(|t.screen|))
    else t
  }

  function EraseLine(t: Term, par: int): (r: Term)
    requires Ok(t)
    ensures Ok(r)
  {
    RowLe(t.cols, t.y, LINES);
    var line := Row(t.cols, t.y);
    if par == 0 then t.(screen := Fill(t.screen, Offset(t), line + t.cols))
    else if par == 1 then t.(screen := Fill(t.screen, line, Offset(t)))
    else if par == 2 then t.(screen := Fill(t.screen, line, line + t.cols))
    else t
  }

  /** Cells p..end move right by one, the last of them is lost. */
  function Opened(s: seq<int>, p: nat, end: nat): (r: seq<int>)
    requires p < end <= |s|
    ensures |r| == |s|
  {
    seq(|s|, i requires 0 <= i < |s| && end <= |s| => if i == p then ERASED else if p < i < end then s[i - 1] else s[i])
  }

  /** Cells p+1..end move left by one. */
  function Closed(s: seq<int>, p: nat, end: nat): (r: seq<int>)
    requires p < end <= |s|
    ensures |r| == |s|
  {
    seq(|s|, i requires 0 <= i < |s| && end <= |s| =>
      if p <= i < end - 1 then s[i + 1] else if i == end - 1 then ERASED else s[i])
  }

  function InsertChar(t: Term): (r: Term)
    requires Ok(t)
    ensures Ok(r) && r == t.(screen := r.screen)
  {
    RowLe(t.cols, t.y, LINES);
    if t.x >= t.cols then t
    else t.(screen := Opened(t.screen, Offset(t), Row(t.cols, t.y) + t.cols))
  }

  function DeleteChar(t: Term): (r: Term)
    requires Ok(t)
    ensures Ok(r) && r == t.(screen := r.screen)
  {
    RowLe(t.cols, t.y, LINES);
    if t.x >= t.cols then t
    else t.(screen := Closed(t.screen, Offset(t), Row(t.cols, t.y) + t.cols))
  }

  function InsertLine(t: Term): (r: Term)
    requires Ok(t)
    ensures Ok(r)
  {
    t.(screen := Down(t.screen, t.cols, t.y, LINES))
  }

  function DeleteLine(t: Term): (r: Term)
    requires Ok(t)
    ensures Ok(r)
  {
    t.(screen := Up(t.screen, t.cols, t.y, LINES))
  }

  datatype Edit = CharIn | CharOut | LineIn | LineOut

  function EditOnce(t: Term, e: Edit): (r: Term)
    requires Ok(t)
    ensures Ok(r)
  {
    match e
    case CharIn => InsertChar(t)
    case CharOut => DeleteChar(t)
    case LineIn => InsertLine(t)
    case LineOut => DeleteLine(t)
  }

  function EditTimes(t: Term, e: Edit, n: nat): (r: Term)
    requires Ok(t)
    ensures Ok(r)
  {
    if n == 0 then t else EditOnce(EditTimes(t, e, n - 1), e)
  }

  /** csi_at, csi_L, csi_P, csi_M: 0 counts as 1, and no more than there is room for. */
  function Clamp(n: nat, limit: nat): nat {
    if n > limit then limit else if n == 0 then 1 else n
  }

  /** csi_m over parameters 0..n. */
  function Attribute(attr: int, par: seq<int>, n: nat): int
    requires n <= |par|
  {
    if n == 0 then attr
    else
      var a := Attribute(attr, par, n - 1);
      match par[n - 1]
      case 0 => 0x07
      case 1 => 0x0f
      case 4 => 0x0f
      case 7 => 0x70
      case 27 => 0x07
      case _ => a
  }

  // ---- one character ----

  function Plain(t: Term, c: int, erase: int): (r: Term)
    requires Ok(t)
    ensures Ok(r)
  {
    if 31 < c < 127 then Print(t, c)
    else if c == 27 then t.(state := 1)
    else if c == 10 || c == 11 || c == 12 then Lf(t)
    else if c == 13 then t.(x := 0)
    else if c == erase then Del(t)
    else if c == 8 then t.(x := if t.x > 0 then t.x - 1 else 0)
    else if c == 9 then Tab(t)
    else t
  }

  /** After ESC. The last two tests look at the column, not at the character. */
  function Escape(t0: Term, c: int): (r: Term)
    requires Ok(t0)
    ensures Ok(r)
  {
    var t := t0.(state := 0);
    if c == '[' as int then t.(state := 2)
    else if c == 'E' as int then Goto(t, 0, t.y + 1)
    else if c == 'M' as int then Ri(t)
    else if c == 'D' as int then Lf(t)
    else if c == 'Z' as int then t
    else if t.x == '7' as int then Save(t)
    else if t.x == '8' as int then Goto(t, t.savedX, t.savedY)
    else t
  }

  function Less(t: Term, k: nat): (r: Term)
    requires Ok(t) && k < NPAR
    ensures Ok(r) && r == t.(par := r.par)
  {
    if t.par[k] > 0 then t.(par := t.par[k := t.par[k] - 1]) else t
  }

  function AtLeast1(t: Term): (r: Term)
    requires Ok(t)
    ensures Ok(r) && r == t.(par := r.par)
  {
    if t.par[0] == 0 then t.(par := t.par[0 := 1]) else t
  }

  function Region(t0: Term): (r: Term)
    requires Ok(t0)
    ensures Ok(r)
  {
    var t := Less(t0, 0);
    var u := if t.par[1] == 0 then t.(par := t.par[1 := LINES]) else t;
    if u.par[0] < u.par[1] <= LINES then u.(top := u.par[0], bottom := u.par[1]) else u
  }

  /** Sequences that move the cursor relative to where it is. */
  function MoveBy(t: Term, c: int): (r: Term)
    requires Ok(t)
    ensures Ok(r)
  {
    var u := AtLeast1(t);
    if c == 'A' as int then Goto(u, u.x, u.y - u.par[0])
    else if c == 'B' as int || c == 'e' as int then Goto(u, u.x, u.y + u.par[0])
    else if c == 'C' as int || c == 'a' as int then Goto(u, u.x + u.par[0], u.y)
    else if c == 'D' as int then Goto(u, u.x - u.par[0], u.y)
    else if c == 'E' as int then Goto(u, 0, u.y + u.par[0])
    else Goto(u, 0, u.y - u.par[0])
  }

  /** Sequences that set a coordinate outright; they count from 1. */
  function MoveTo(t: Term, c: int): (r: Term)
    requires Ok(t)
    ensures Ok(r)
  {
    var u := Less(t, 0);
    if c == 'G' as int || c == '`' as int then Goto(u, u.par[0], u.y)
    else if c == 'd' as int then Goto(u, u.x, u.par[0])
    else var v := Less(u, 1); Goto(v, v.par[1], v.par[0])
  }

  function EditText(t: Term, c: int): (r: Term)
    requires Ok(t)
    ensures Ok(r)
  {
    if c == 'J' as int then EraseDisplay(t, t.par[0])
    else if c == 'K' as int then EraseLine(t, t.par[0])
    else if c == 'L' as int then EditTimes(t, LineIn, Clamp(t.par[0], LINES))
    else if c == 'M' as int then EditTimes(t, LineOut, Clamp(t.par[0], LINES))
    else if c == 'P' as int then EditTimes(t, CharOut, Clamp(t.par[0], t.cols))
    else EditTimes(t, CharIn, Clamp(t.par[0], t.cols))
  }

  function SetMode(t: Term, c: int): (r: Term)
    requires Ok(t)
    ensures Ok(r)
  {
    if c == 'm' as int then t.(attr := Attribute(t.attr, t.par, t.npar + 1))
    else if c == 'r' as int then Region(t)
    else if c == 's' as int then Save(t)
    else if c == 'u' as int then Goto(t, t.savedX, t.savedY)
    else t
  }

  predicate MovesBy(c: int) {
    c in ['A' as int, 'B' as int, 'e' as int, 'C' as int, 'a' as int, 'D' as int, 'E' as int, 'F' as int]
  }

  predicate MovesTo(c: int) {
    c in ['G' as int, '`' as int, 'd' as int, 'H' as int, 'f' as int]
  }

  predicate EditsText(c: int) {
    c in ['J' as int, 'K' as int, 'L' as int, 'M' as int, 'P' as int, '@' as int]
  }

  /** The character that ends a control sequence. */
  function Final(t0: Term, c: int): (r: Term)
    requires Ok(t0)
    ensures Ok(r)
  {
    var t := t0.(state := 0);
    if MovesBy(c) then MoveBy(t, c)
    else if MovesTo(c) then MoveTo(t, c)
    else if EditsText(c) then EditText(t, c)
    else SetMode(t, c)
  }

  function Params(t: Term, c: int): (r: Term)
    requires Ok(t)
    ensures Ok(r)
  {
    if c == ';' as int && t.npar < NPAR - 1 then t.(npar := t.npar + 1)
    else if '0' as int <= c <= '9' as int then
      t.(par := t.par[t.npar := U32(10 * t.par[t.npar] + c - '0' as int)])
    else Final(t, c)
  }

  function Bracket(t: Term, c: int): (r: Term)
    requires Ok(t)
    ensures Ok(r)
  {
    var u := t.(par := seq(NPAR, _ => 0), npar := 0, state := 3, ques := c == '?' as int);
    if u.ques then u else Params(u, c)
  }

  function Feed(t: Term, c: int, erase: int): (r: Term)
    requires Ok(t)
    ensures Ok(r)
  {
    match t.state
    case 0 => Plain(t, c, erase)
    case 1 => Escape(t, c)
    case 2 => Bracket(t, c)
    case _ => Params(t, c)
  }

  function FeedAll(t: Term, s: seq<int>, erase: int): (r: Term)
    requires Ok(t)
    ensures Ok(r)
  {
    if s == [] then t else Feed(FeedAll(t, s[..|s| - 1], erase), s[|s| - 1], erase)
  }

  /** ESC 7 is meant to save the cursor; the test at line 505 makes it do so only with
      the cursor in column 55, or when that very position was saved before. */
  lemma EscapeSeven(t: Term)
    requires Ok(t) && t.state == 1
    ensures Feed(t, '7' as int, 127) == Save(t.(state := 0)) <==> t.x == 55 || (t.savedX == t.x && t.savedY == t.y)
  {
  }

  /** ESC 8 is meant to restore it; the test at line 507 makes it do so only with the
      cursor in column 56, or when going back would change nothing. In column 55 it
      saves the cursor instead. */
  lemma EscapeEight(t: Term)
    requires Ok(t) && t.state == 1 && t.cols < 0x1_0000_0000
    ensures Feed(t, '8' as int, 127) == Goto(t.(state := 0), t.savedX, t.savedY)
      <==> || t.x == 56 || (t.savedX == t.x && t.savedY == t.y)
           || (t.x != 55 && (U32(t.savedX) > t.cols || U32(t.savedY) >= LINES))
           || (t.x != 55 && U32(t.savedX) == t.x && U32(t.savedY) == t.y)
    ensures t.x == 55 ==> Feed(t, '8' as int, 127) == Save(t.(state := 0))
  {
  }

  // ---- a control sequence read from start to end ----

  lemma {:induction false} FeedMore(t: Term, a: seq<int>, b: seq<int>, erase: int)
    requires Ok(t)
    ensures FeedAll(t, a + b, erase) == FeedAll(FeedAll(t, a, erase), b, erase)
    decreases |b|
  {
    if b == [] {
      assert a + b == a;
    } else {
      var n := |b| - 1;
      assert (a + b)[..|a + b| - 1] == a + b[..n];
      FeedMore(t, a, b[..n], erase);
    }
  }

  lemma FeedOne(t: Term, c: int, erase: int)
    requires Ok(t)
    ensures FeedAll(t, [c], erase) == Feed(t, c, erase)
  {
    assert [c][..0] == [];
  }

  /** n in decimal. */
  function Digits(n: nat): (d: seq<int>)
    ensures d != [] && forall i :: 0 <= i < |d| ==> '0' as int <= d[i] <= '9' as int
  {
    (if n < 10 then [] else Digits(n / 10)) + ['0' as int + n % 10]
  }

  lemma FeedDigit(t: Term, k: nat, erase: int)
    requires Ok(t) && t.state == 3 && k < 10
    ensures Feed(t, '0' as int + k, erase) == t.(par := t.par[t.npar := U32(10 * t.par[t.npar] + k)])
  {
    hide Final;
  }

  lemma FeedSeparator(t: Term, erase: int)
    requires Ok(t) && t.state == 3 && t.npar < NPAR - 1
    ensures Feed(t, ';' as int, erase) == t.(npar := t.npar + 1)
  {
    hide Final;
  }

  /** The digits of a number below 2^32 leave it in the current parameter. */
  lemma {:induction false} ReadsNumber(t: Term, n: nat, erase: int)
    requires Ok(t) && t.state == 3 && t.par[t.npar] == 0 && n < 0x1_0000_0000
    ensures FeedAll(t, Digits(n), erase) == t.(par := t.par[t.npar := n])
  {
    hide Feed, FeedAll;
    var last := '0' as int + n % 10;
    if n < 10 {
      assert Digits(n) == [last];
      FeedOne(t, last, erase);
      FeedDigit(t, n, erase);
    } else {
      ReadsNumber(t, n / 10, erase);
      assert Digits(n) == Digits(n / 10) + [last];
      var u := t.(par := t.par[t.npar := n / 10]);
      FeedMore(t, Digits(n / 10), [last], erase);
      FeedOne(u, last, erase);
      FeedDigit(u, n % 10, erase);
      assert t.par[t.npar := n / 10][t.npar := n] == t.par[t.npar := n];
    }
  }

  /** The first character after ESC [ is read as if the parameters had been there. */
  function WithParams(t: Term): (r: Term)
    requires Ok(t)
    ensures Ok(r)
  {
    t.(par := seq(NPAR, _ => 0), npar := 0, state := 3, ques := false)
  }

  lemma BracketFirst(t: Term, c: int, erase: int)
    requires Ok(t) && t.state == 2 && c != '?' as int
    ensures Feed(t, c, erase) == Feed(WithParams(t), c, erase)
  {
    hide Params;
  }

  lemma AfterBracket(t: Term, s: seq<int>, erase: int)
    requires Ok(t) && t.state == 2 && s != [] && s[0] != '?' as int
    ensures FeedAll(t, s, erase) == FeedAll(WithParams(t), s, erase)
  {
    hide Feed, FeedAll, WithParams;
    assert s == [s[0]] + s[1..];
    FeedMore(t, [s[0]], s[1..], erase);
    FeedMore(WithParams(t), [s[0]], s[1..], erase);
    FeedOne(t, s[0], erase);
    FeedOne(WithParams(t), s[0], erase);
    BracketFirst(t, s[0], erase);
  }

  lemma Introduced(t: Term, erase: int)
    requires Ok(t) && t.state == 0 && erase != 27
    ensures FeedAll(t, [27, '[' as int], erase) == t.(state := 2)
  {
    assert [27, '[' as int] == [27] + ['[' as int];
    FeedMore(t, [27], ['[' as int], erase);
    FeedOne(t, 27, erase);
    FeedOne(t.(state := 1), '[' as int, erase);
  }

  /** ESC [ row ; col H. */
  function CursorSequence(row: nat, col: nat): seq<int> {
    [27, '[' as int] + (Digits(row) + ([';' as int] + (Digits(col) + ['H' as int])))
  }

  /** Row and column count from 1, and 0 counts as 1. */
  function From1(n: nat): nat {
    if n > 0 then n - 1 else 0
  }

  lemma FinalPosition(t: Term, erase: int)
    requires Ok(t) && t.state == 3
    ensures Feed(t, 'H' as int, erase) == MoveTo(t.(state := 0), 'H' as int)
  {
    hide MoveTo;
  }

  lemma LessIs(t: Term, k: nat)
    requires Ok(t) && k < NPAR
    ensures Less(t, k) == t.(par := t.par[k := From1(t.par[k])])
  {
    if t.par[k] == 0 {
      assert t.par[k := 0] == t.par;
    }
  }

  lemma FeedPosition(t: Term, erase: int)
    requires Ok(t) && t.state == 3
    ensures var r, col, row := Feed(t, 'H' as int, erase), From1(t.par[1]), From1(t.par[0]);
      r == t.(state := 0, par := r.par, x := if col <= t.cols && row < LINES then col else t.x,
              y := if col <= t.cols && row < LINES then row else t.y)
  {
    FinalPosition(t, erase);
    var u := t.(state := 0);
    LessIs(u, 0);
    LessIs(Less(u, 0), 1);
    var v := Less(Less(u, 0), 1);
    assert Feed(t, 'H' as int, erase) == Goto(v, v.par[1], v.par[0]);
    assert v == u.(par := v.par) && v.par[1] == From1(t.par[1]) && v.par[0] == From1(t.par[0]);
    hide Feed, MoveTo, Less;
  }

  lemma ReadsTwo(t: Term, row: nat, col: nat, erase: int)
    requires Ok(t) && t.state == 3 && t.npar == 0 && t.par[0] == 0 == t.par[1]
    requires row < 0x1_0000_0000 && col < 0x1_0000_0000
    ensures FeedAll(t, Digits(row) + ([';' as int] + Digits(col)), erase)
      == t.(npar := 1, par := t.par[0 := row][1 := col])
  {
    hide Feed, FeedAll, Digits;
    var u := t.(par := t.par[0 := row]);
    ReadsNumber(t, row, erase);
    FeedMore(t, Digits(row), [';' as int] + Digits(col), erase);
    FeedMore(u, [';' as int], Digits(col), erase);
    FeedOne(u, ';' as int, erase);
    FeedSeparator(u, erase);
    ReadsNumber(u.(npar := 1), col, erase);
  }

  /** Sent from text mode, the sequence moves the cursor to the column and row given, if
      that is on the screen, and does nothing else. */
  lemma CursorTo(t: Term, row: nat, col: nat, erase: int)
    requires Ok(t) && t.state == 0 && row < 0x1_0000_0000 && col < 0x1_0000_0000 && erase != 27
    ensures var u := FeedAll(t, CursorSequence(row, col), erase);
      u == t.(state := 0, ques := false, npar := 1, par := u.par,
              x := if From1(col) <= t.cols && From1(row) < LINES then From1(col) else t.x,
              y := if From1(col) <= t.cols && From1(row) < LINES then From1(row) else t.y)
  {
    hide Feed, FeedAll;
    var two := Digits(row) + ([';' as int] + Digits(col));
    var rest := two + ['H' as int];
    assert CursorSequence(row, col) == [27, '[' as int] + rest;
    Introduced(t, erase);
    FeedMore(t, [27, '[' as int], rest, erase);
    assert rest[0] == Digits(row)[0];
    AfterBracket(t.(state := 2), rest, erase);
    var t3 := WithParams(t.(state := 2));
    ReadsTwo(t3, row, col, erase);
    var t4 := t3.(npar := 1, par := t3.par[0 := row][1 := col]);
    FeedMore(t3, two, ['H' as int], erase);
    FeedOne(t4, 'H' as int, erase);
    FeedPosition(t4, erase);
  }

  /** Printing past the right margin goes on at the start of the next row, after
      scrolling at the end of the region, and disturbs nothing else. */
  lemma PrintAtMargin(t: Term, c: int)
    requires Ok(t) && t.x == t.cols
    ensures var u := Lf(t.(x := 0));
            && Row(t.cols, u.y) < |u.screen| && u.y == (if t.y + 1 < t.bottom then t.y + 1 else t.y)
            && Print(t, c) == u.(x := 1, screen := u.screen[Row(t.cols, u.y) := t.attr * 256 + c])
  {
    var u := Lf(t.(x := 0));
    RowLe(t.cols, u.y, LINES);
    hide Up, Row;
  }
}
