/** kernel/chr_drv/console.c over video memory, for displays with and without the
    moving origin of EGA and VGA. Addresses count 16-bit cells from the start of
    video memory. */
module Console {
  import opened ConsoleModel

  /** n cells copied from src to dst. */
  function Moved(m: seq<int>, dst: nat, src: nat, n: nat): (r: seq<int>)
    requires dst + n <= |m| && src + n <= |m|
    ensures |r| == |m|
  {
    seq(|m|, i requires 0 <= i < |m| && src + n <= |m| => Lifted(m, dst, src, n, i))
  }

  function Lifted(m: seq<int>, dst: int, src: int, n: int, i: int): int
    requires 0 <= src && src + n <= |m| && 0 <= i < |m|
  {
    if dst <= i < dst + n then m[src + (i - dst)] else m[i]
  }

  /** Seen through a window on memory, the two string instructions of a scroll. */
  lemma UpInPlace(m: seq<int>, o: nat, n: nat, a: nat, b: nat, cols: nat)
    requires a + cols <= b <= n && o + n <= |m|
    ensures Fill(Moved(m, o + a, o + a + cols, b - a - cols), o + b - cols, o + b)[o..o + n]
      == UpAt(m[o..o + n], cols, a, b)
  {
    var r := Fill(Moved(m, o + a, o + a + cols, b - a - cols), o + b - cols, o + b);
    var got, want := r[o..o + n], UpAt(m[o..o + n], cols, a, b);
    forall i | 0 <= i < n
      ensures got[i] == want[i]
    {
      Slice(r, o, n, i);
      Slice(m, o, n, i);
      if a <= i < b - cols {
        Slice(m, o, n, i + cols);
      }
    }
  }

  lemma DownInPlace(m: seq<int>, o: nat, n: nat, a: nat, b: nat, cols: nat)
    requires a + cols <= b <= n && o + n <= |m|
    ensures Fill(Moved(m, o + a + cols, o + a, b - a - cols), o + a, o + a + cols)[o..o + n]
      == DownAt(m[o..o + n], cols, a, b)
  {
    var r := Fill(Moved(m, o + a + cols, o + a, b - a - cols), o + a, o + a + cols);
    var got, want := r[o..o + n], DownAt(m[o..o + n], cols, a, b);
    forall i | 0 <= i < n
      ensures got[i] == want[i]
    {
      Slice(r, o, n, i);
      Slice(m, o, n, i);
      if a + cols <= i < b {
        Slice(m, o, n, i - cols);
      }
    }
  }

  /** The origin moves down one row instead of the text moving up. */
  lemma UpByOrigin(m: seq<int>, o: nat, n: nat, cols: nat)
    requires cols <= n && o + n + cols <= |m|
    ensures Fill(m, o + n, o + n + cols)[o + cols..o + cols + n] == UpAt(m[o..o + n], cols, 0, n)
  {
    var r := Fill(m, o + n, o + n + cols);
    var got, want := r[o + cols..o + cols + n], UpAt(m[o..o + n], cols, 0, n);
    forall i | 0 <= i < n
      ensures got[i] == want[i]
    {
      Slice(r, o + cols, n, i);
      if i < n - cols {
        Slice(m, o, n, i + cols);
      }
    }
  }

  /** At the end of video memory the screen is copied back to its start. */
  lemma UpByWrap(m: seq<int>, o: nat, n: nat, cols: nat)
    requires cols <= n && o + n <= |m|
    ensures Fill(Moved(m, 0, o + cols, n - cols), n - cols, n)[0..0 + n] == UpAt(m[o..o + n], cols, 0, n)
  {
    var r := Fill(Moved(m, 0, o + cols, n - cols), n - cols, n);
    var got, want := r[0..0 + n], UpAt(m[o..o + n], cols, 0, n);
    forall i | 0 <= i < n
      ensures got[i] == want[i]
    {
      Slice(r, 0, n, i);
      if i < n - cols {
        Slice(m, o, n, i + cols);
      }
    }
  }

  lemma Longs(cols: nat, n: nat)
    requires cols % 2 == 0
    ensures n * cols / 2 * 2 == n * cols == Row(cols, n)
  {
    assert n * cols == n * (cols / 2) * 2;
  }

  lemma RowDiff(cols: nat, a: nat, b: nat)
    requires a < b
    ensures (b - a - 1) * cols == Row(cols, b) - Row(cols, a) - cols
  {
  }

  class Screen {
    const ega: bool
    const cols: nat
    const mem: array<int>
    var origin: nat
    var scrEnd: nat
    var pos: nat
    var x: nat
    var y: nat
    var top: nat
    var bottom: nat
    var state: nat
    var ques: bool
    var npar: nat
    var par: seq<int>
    var attr: int
    var savedX: nat
    var savedY: nat

    /** The screen lies inside video memory and pos is where the cursor is. */
    ghost predicate Placed()
      reads this
    {
      scrEnd == origin + Row(cols, LINES) && scrEnd <= mem.Length && pos == origin + Row(cols, y) + x
        && (!ega ==> origin == 0)
    }

    /** The terminal seen through origin. */
    ghost function View(): Term
      requires origin <= scrEnd <= mem.Length
      reads this, mem
    {
      Term(cols, mem[origin..scrEnd], x, y, top, bottom, state, ques, npar, par, attr, savedX, savedY)
    }

    ghost predicate Valid()
      reads this, mem
    {
      Placed() && Ok(View())
    }

    /** con_init; the cursor stays where the BIOS left it. */
    constructor (ega: bool, cols: nat, size: nat, x: nat, y: nat)
      requires cols >= 8 && cols % 2 == 0 && Row(cols, LINES) <= size && x <= cols && y < LINES
      ensures Valid() && fresh(mem) && this.ega == ega && this.cols == cols && mem.Length == size
      ensures View() == Term(cols, View().screen, x, y, 0, LINES, 0, false, 0, Zeros(NPAR), 7, 0, 0)
    {
      this.ega, this.cols := ega, cols;
      mem := new int[size](_ => 0);
      origin := 0;
      scrEnd := LINES * cols;
      top, bottom := 0, LINES;
      this.x, this.y, pos := x, y, y * cols + x;
      state, ques, npar, par, attr, savedX, savedY := 0, false, 0, Zeros(NPAR), 7, 0, 0;
    }

    // ---- the string instructions ----

    /** rep stosw, upwards. */
    method Stosw(start: nat, count: nat)
      requires start + count <= mem.Length
      modifies mem
      ensures mem[..] == Fill(old(mem[..]), start, start + count)
    {
      for k := 0 to count
        invariant forall i :: 0 <= i < mem.Length ==> mem[i] == if start <= i < start + k then ERASED else old(mem[i])
      {
        mem[start + k] := ERASED;
      }
    }

    /** rep stosw, downwards from just below `end`. */
    method StoswDown(end: nat, count: nat)
      requires count <= end <= mem.Length
      modifies mem
      ensures mem[..] == Fill(old(mem[..]), end - count, end)
    {
      for k := 0 to count
        invariant forall i :: 0 <= i < mem.Length ==> mem[i] == if end - k <= i < end then ERASED else old(mem[i])
      {
        mem[end - k - 1] := ERASED;
      }
    }

    /** rep movsl upwards, two cells at a time. */
    method MovslUp(dst: nat, src: nat, longs: nat)
      requires dst + 2 <= src && src + 2 * longs <= mem.Length
      modifies mem
      ensures mem[..] == Moved(old(mem[..]), dst, src, 2 * longs)
    {
      ghost var was := mem[..];
      for k := 0 to longs
        invariant forall i :: 0 <= i < mem.Length ==> mem[i] == Lifted(was, dst, src, 2 * k, i)
      {
        var s, d := src + 2 * k, dst + 2 * k;
        assert mem[s] == was[s] && mem[s + 1] == was[s + 1];
        mem[d], mem[d + 1] := mem[s], mem[s + 1];
      }
    }

    /** rep movsl downwards; dst and src are where the blocks end. */
    method MovslDown(dst: nat, src: nat, longs: nat)
      requires src + 2 <= dst <= mem.Length && 2 * longs <= src
      modifies mem
      ensures mem[..] == Moved(old(mem[..]), dst - 2 * longs, src - 2 * longs, 2 * longs)
    {
      ghost var was := mem[..];
      for k := 0 to longs
        invariant forall i :: 0 <= i < mem.Length ==> mem[i] == Lifted(was, dst - 2 * k, src - 2 * k, 2 * k, i)
      {
        var s, d := src - 2 * k - 2, dst - 2 * k - 2;
        assert mem[s] == was[s] && mem[s + 1] == was[s + 1];
        mem[d], mem[d + 1] := mem[s], mem[s + 1];
      }
    }

    // ---- scrolling ----

    method ScrUp()
      requires Valid()
      modifies this, mem
      ensures Valid() && View() == old(View()).(screen := Up(old(View()).screen, cols, top, bottom))
    {
      if ega && top == 0 && bottom == LINES {
        ScrUpFast();
      } else {
        ScrUpRegion();
      }
    }

    method ScrUpFast()
      requires Valid() && ega && top == 0 && bottom == LINES
      modifies this, mem
      ensures Valid() && View() == old(View()).(screen := Up(old(View()).screen, cols, 0, LINES))
    {
      ghost var t := View();
      Rows(cols, 0, LINES, 0); RowNext(cols, 0); Longs(cols, LINES - 1);
      UpIs(t.screen, cols, 0, LINES, 0, Row(cols, LINES));
      OkScreen(t, Up(t.screen, cols, 0, LINES));
      RowLe(cols, y, LINES);
      assert cols >= 2 && pos <= scrEnd;
      hide Row, Fill, Up, UpAt, Ok;
      FastCells((LINES - 1) * cols / 2);
      assert mem[origin..scrEnd] == Up(t.screen, cols, 0, LINES);
    }

    method FastCells(longs: nat)
      requires origin <= pos <= scrEnd <= mem.Length && scrEnd - origin == 2 * longs + cols && cols >= 2
      modifies this`origin, this`pos, this`scrEnd, mem
      ensures origin <= scrEnd <= mem.Length && scrEnd - origin == 2 * longs + cols
      ensures pos - origin == old(pos) - old(origin)
      ensures var w := old(mem[origin..scrEnd]); mem[origin..scrEnd] == UpAt(w, cols, 0, |w|)
    {
      hide Fill, Moved, UpAt, DownAt;
      ghost var m := mem[..];
      ghost var o, n := origin, scrEnd - origin;
      origin := origin + cols;
      pos := pos + cols;
      scrEnd := scrEnd + cols;
      if scrEnd > mem.Length {
        MovslUp(0, origin, longs);
        Stosw(2 * longs, cols);
        UpByWrap(m, o, n, cols);
        scrEnd := scrEnd - origin;
        pos := pos - origin;
        origin := 0;
        assert mem[0..n] == mem[..][0..0 + n];
      } else {
        Stosw(scrEnd - cols, cols);
        UpByOrigin(m, o, n, cols);
        assert mem[origin..scrEnd] == mem[..][o + cols..o + cols + n];
      }
    }

    method ScrUpRegion()
      requires Valid()
      modifies mem
      ensures Valid() && View() == old(View()).(screen := Up(old(View()).screen, cols, top, bottom))
    {
      ghost var t := View();
      Rows(cols, top, bottom, 0);
      Longs(cols, bottom - top - 1);
      RowDiff(cols, top, bottom);
      UpIs(t.screen, cols, top, bottom, Row(cols, top), Row(cols, bottom));
      OkScreen(t, Up(t.screen, cols, top, bottom));
      var a, b, longs := top * cols, bottom * cols, (bottom - top - 1) * cols / 2;
      assert cols >= 2 && a == Row(cols, top) && b == Row(cols, bottom) && b - a == 2 * longs + cols;
      hide Row, Up, UpAt, Ok;
      UpCells(a, b, longs);
      assert mem[origin..scrEnd] == Up(t.screen, cols, top, bottom);
    }

    method UpCells(a: nat, b: nat, longs: nat)
      requires origin + b <= scrEnd <= mem.Length && b - a == 2 * longs + cols && cols >= 2
      modifies mem
      ensures var w := old(mem[origin..scrEnd]); mem[origin..scrEnd] == UpAt(w, cols, a, b)
    {
      hide Fill, Moved, UpAt, DownAt;
      ghost var m := mem[..];
      MovslUp(origin + a, origin + a + cols, longs);
      Stosw(origin + a + 2 * longs, cols);
      UpInPlace(m, origin, scrEnd - origin, a, b, cols);
      assert mem[origin..scrEnd] == mem[..][origin..origin + (scrEnd - origin)];
    }

    method ScrDown()
      requires Valid()
      modifies mem
      ensures Valid() && View() == old(View()).(screen := Down(old(View()).screen, cols, top, bottom))
    {
      ghost var t := View();
      Rows(cols, top, bottom, 0);
      Longs(cols, bottom - top - 1);
      RowDiff(cols, top, bottom);
      DownIs(t.screen, cols, top, bottom, Row(cols, top), Row(cols, bottom));
      OkScreen(t, Down(t.screen, cols, top, bottom));
      var a, b, longs := top * cols, bottom * cols, (bottom - top - 1) * cols / 2;
      assert cols >= 2 && a == Row(cols, top) && b == Row(cols, bottom) && b - a == 2 * longs + cols;
      hide Row, Down, DownAt, Ok;
      DownCells(a, b, longs);
      assert mem[origin..scrEnd] == Down(t.screen, cols, top, bottom);
    }

    method DownCells(a: nat, b: nat, longs: nat)
      requires origin + b <= scrEnd <= mem.Length && b - a == 2 * longs + cols && cols >= 2
      modifies mem
      ensures var w := old(mem[origin..scrEnd]); mem[origin..scrEnd] == DownAt(w, cols, a, b)
    {
      hide Fill, Moved, UpAt, DownAt;
      ghost var m := mem[..];
      MovslDown(origin + b, origin + b - cols, longs);
      StoswDown(origin + b - 2 * longs, cols);
      DownInPlace(m, origin, scrEnd - origin, a, b, cols);
      assert mem[origin..scrEnd] == mem[..][origin..origin + (scrEnd - origin)];
    }

    // ---- cells of the screen ----

    method SetCell(p: nat, v: int)
      requires origin <= p < scrEnd <= mem.Length
      modifies mem
      ensures mem[origin..scrEnd] == old(mem[origin..scrEnd])[p - origin := v]
    {
      mem[p] := v;
    }

    method EraseCells(start: nat, count: nat)
      requires origin <= start && start + count <= scrEnd <= mem.Length
      modifies mem
      ensures mem[origin..scrEnd] == Fill(old(mem[origin..scrEnd]), start - origin, start - origin + count)
    {
      ghost var m := mem[..];
      Stosw(start, count);
      FillInPlace(m, origin, scrEnd - origin, start - origin, start - origin + count);
      assert mem[origin..scrEnd] == mem[..][origin..origin + (scrEnd - origin)];
    }

    // ---- the cursor ----

    method GotoXY(newX: int, newY: int)
      requires Valid()
      modifies this`x, this`y, this`pos
      ensures Valid() && View() == Goto(old(View()), newX, newY)
    {
      var nx, ny := U32(newX), U32(newY);
      if nx > cols || ny >= LINES {
        return;
      }
      x := nx;
      y := ny;
      pos := origin + y * cols + x;
    }

    method LineFeed()
      requires Valid()
      modifies this, mem
      ensures Valid() && View() == Lf(old(View()))
    {
      RowNext(cols, y);
      if y + 1 < bottom {
        y := y + 1;
        pos := pos + cols;
        return;
      }
      ScrUp();
    }

    method ReverseFeed()
      requires Valid()
      modifies this, mem
      ensures Valid() && View() == Ri(old(View()))
    {
      if y > top {
        RowNext(cols, y - 1);
        y := y - 1;
        pos := pos - cols;
        return;
      }
      ScrDown();
    }

    method DeleteBack()
      requires Valid()
      modifies this`x, this`pos, mem
      ensures Valid() && View() == Del(old(View()))
    {
      if x > 0 {
        RowLe(cols, y, LINES);
        pos := pos - 1;
        x := x - 1;
        SetCell(pos, ERASED);
      }
    }

    /** The column has passed the right margin. */
    method Wrap()
      requires origin <= scrEnd <= mem.Length && x >= cols && pos >= cols && x - cols <= cols
      requires scrEnd == origin + Row(cols, LINES) && pos == origin + Row(cols, y) + x && (!ega ==> origin == 0)
      requires Ok(View().(x := x - cols))
      modifies this, mem
      ensures Valid() && View() == Lf(old(View()).(x := old(x) - cols))
    {
      x := x - cols;
      pos := pos - cols;
      LineFeed();
    }

    /** The cell goes under the cursor, which moves on. */
    method PutHere(v: int)
      requires Valid() && x < cols
      modifies this`pos, this`x, mem
      ensures Valid() && View() == old(View()).(x := old(x) + 1, screen := old(View()).screen[Offset(old(View())) := v])
    {
      RowLe(cols, y, LINES);
      SetCell(pos, v);
      pos := pos + 1;
      x := x + 1;
    }

    method PrintChar(c: int)
      requires Valid()
      modifies this, mem
      ensures Valid() && View() == Print(old(View()), c)
    {
      hide Row, Up;
      if x >= cols {
        Wrap();
      }
      PutHere(attr * 256 + c);
    }

    method HorizontalTab()
      requires Valid()
      modifies this, mem
      ensures Valid() && View() == Tab(old(View()))
    {
      var c := 8 - x % 8;
      x := x + c;
      pos := pos + c;
      if x > cols {
        Wrap();
      }
    }

    // ---- erasing ----

    method CsiJ(n: int)
      requires Valid()
      modifies mem
      ensures Valid() && View() == EraseDisplay(old(View()), n)
    {
      RowLe(cols, y, LINES);
      if n == 0 {
        EraseCells(pos, scrEnd - pos);
      } else if n == 1 {
        EraseCells(origin, pos - origin);
      } else if n == 2 {
        EraseCells(origin, cols * LINES);
      }
    }

    method CsiK(n: int)
      requires Valid()
      modifies mem
      ensures Valid() && View() == EraseLine(old(View()), n)
    {
      hide EraseLine, Fill, Row;
      EraseLineIs(View(), n);
      if n == 0 {
        if x >= cols {
          return;
        }
        EraseInLine(x, cols);
      } else if n == 1 {
        EraseInLine(0, if x < cols then x else cols);
      } else if n == 2 {
        EraseInLine(0, cols);
      }
    }

    /** Columns from..to of the cursor's row. */
    method EraseInLine(from: nat, to: nat)
      requires Valid() && from <= to <= cols
      modifies mem
      ensures Valid() && Row(cols, y) + cols <= |old(View()).screen|
      ensures View() == old(View()).(screen := Fill(old(View()).screen, Row(cols, y) + from, Row(cols, y) + to))
    {
      RowLe(cols, y, LINES);
      OkScreen(View(), Fill(View().screen, Row(cols, y) + from, Row(cols, y) + to));
      hide Row, Fill;
      EraseCells(pos - x + from, to - from);
    }

    // ---- inserting and deleting ----

    method InsertCell()
      requires Valid()
      modifies mem
      ensures Valid() && View() == InsertChar(old(View()))
    {
      if x < cols {
        ghost var t := View();
        EditIs(t);
        assert Ok(InsertChar(t));
        hide Row, Ok, InsertChar;
        ShiftRight(pos, cols - x);
        assert mem[origin..scrEnd] == InsertChar(t).screen;
      }
    }

    method ShiftRight(start: nat, n: nat)
      requires origin <= start && start + n <= scrEnd <= mem.Length
      modifies mem
      ensures var w := old(mem[origin..scrEnd]); var at := start - origin;
              mem[origin..scrEnd] == if n == 0 then w else Opened(w, at, at + n)
    {
      hide Opened;
      ghost var w := mem[origin..scrEnd];
      ghost var at := start - origin;
      var p, carry := start, ERASED;
      for k := 0 to n
        invariant p == start + k
        invariant k == 0 ==> carry == ERASED && mem[origin..scrEnd] == w
        invariant k > 0 ==> carry == w[at + k - 1] && mem[origin..scrEnd] == Opened(w, at, at + k)
      {
        Shifted(w, at, k);
        ghost var v := mem[origin..scrEnd];
        var tmp := mem[p];
        assert tmp == v[at + k] == w[at + k];
        SetCell(p, carry);
        carry := tmp;
        p := p + 1;
      }
    }

    method DeleteCell()
      requires Valid()
      modifies mem
      ensures Valid() && View() == DeleteChar(old(View()))
    {
      if x >= cols {
        return;
      }
      ghost var t := View();
      EditIs(t);
      assert Ok(DeleteChar(t));
      hide Row, Ok, DeleteChar;
      PullLeft(pos, cols - x);
      assert mem[origin..scrEnd] == DeleteChar(t).screen;
    }

    /** *p = *(p+1) */
    method CopyBack(p: nat)
      requires origin <= p < scrEnd - 1 < mem.Length
      modifies mem
      ensures var w := old(mem[origin..scrEnd]); mem[origin..scrEnd] == w[p - origin := w[p + 1 - origin]]
    {
      SetCell(p, mem[p + 1]);
    }

    method PullLeft(start: nat, n: nat)
      requires origin <= start && 0 < n && start + n <= scrEnd <= mem.Length
      modifies mem
      ensures var w := old(mem[origin..scrEnd]); var at := start - origin;
              mem[origin..scrEnd] == Closed(w, at, at + n)
    {
      hide Closed, Partly;
      ghost var w := mem[origin..scrEnd];
      ghost var at := start - origin;
      PulledNone(w, at);
      PullOver(start, n, w, at);
      SetCell(start + n - 1, ERASED);
      PulledLast(w, at, n);
    }

    method PullOver(start: nat, n: nat, ghost w: seq<int>, ghost at: nat)
      requires origin <= start && 0 < n && start + n <= scrEnd <= mem.Length && at == start - origin
      requires |w| == scrEnd - origin && mem[origin..scrEnd] == Partly(w, at, 1)
      modifies mem
      ensures mem[origin..scrEnd] == Partly(w, at, n)
    {
      hide Closed, Partly;
      var i := 1;
      while i < n
        invariant 1 <= i <= n && mem[origin..scrEnd] == Partly(w, at, i)
      {
        Pulled(w, at, i);
        CopyBack(start + i - 1);
        i := i + 1;
      }
    }

    method InsertRow()
      requires Valid()
      modifies this`top, this`bottom, mem
      ensures Valid() && View() == InsertLine(old(View()))
    {
      var oldTop, oldBottom := top, bottom;
      top, bottom := y, LINES;
      ScrDown();
      top, bottom := oldTop, oldBottom;
    }

    method DeleteRow()
      requires Valid()
      modifies this, mem
      ensures Valid() && View() == DeleteLine(old(View()))
    {
      var oldTop, oldBottom := top, bottom;
      top, bottom := y, LINES;
      ScrUp();
      top, bottom := oldTop, oldBottom;
    }

    method EditLoop(e: Edit, nr: nat)
      requires Valid()
      modifies this, mem
      ensures Valid() && View() == EditTimes(old(View()), e, nr)
    {
      hide Ok, Row, InsertChar, DeleteChar, InsertLine, DeleteLine;
      ghost var t := View();
      for k := 0 to nr
        invariant Valid() && View() == EditTimes(t, e, k)
      {
        match e
        case CharIn => InsertCell();
        case CharOut => DeleteCell();
        case LineIn => InsertRow();
        case LineOut => DeleteRow();
      }
    }

    /** csi_at, csi_P, csi_L, csi_M. */
    method EditSome(e: Edit, n: nat)
      requires Valid()
      modifies this, mem
      ensures Valid() && View() == EditTimes(old(View()), e, Clamp(n, if e.CharIn? || e.CharOut? then cols else LINES))
    {
      var nr := n;
      var limit := if e.CharIn? || e.CharOut? then cols else LINES;
      if nr > limit {
        nr := limit;
      } else if nr == 0 {
        nr := 1;
      }
      EditLoop(e, nr);
    }

    // ---- attributes and the saved cursor ----

    method CsiM()
      requires Valid()
      modifies this`attr
      ensures Valid() && View() == old(View()).(attr := Attribute(old(attr), par, npar + 1))
    {
      var i := 0;
      while i <= npar
        invariant 0 <= i <= npar + 1 && attr == Attribute(old(attr), par, i)
      {
        match par[i] {
          case 0 => attr := 0x07;
          case 1 => attr := 0x0f;
          case 4 => attr := 0x0f;
          case 7 => attr := 0x70;
          case 27 => attr := 0x07;
          case _ =>
        }
        i := i + 1;
      }
    }

    method SaveCur()
      requires Valid()
      modifies this`savedX, this`savedY
      ensures Valid() && View() == Save(old(View()))
    {
      savedX := x;
      savedY := y;
    }

    method RestoreCur()
      requires Valid()
      modifies this`x, this`y, this`pos
      ensures Valid() && View() == Goto(old(View()), old(savedX), old(savedY))
    {
      GotoXY(savedX, savedY);
    }

    // ---- con_write ----

    method PlainChar(c: int, erase: int)
      requires Valid()
      modifies this, mem
      ensures Valid() && View() == Plain(old(View()), c, erase)
    {
      hide Row, Print, Lf, Del, Tab;
      if 31 < c < 127 {
        PrintChar(c);
      } else if c == 27 {
        state := 1;
      } else if c == 10 || c == 11 || c == 12 {
        LineFeed();
      } else if c == 13 {
        pos := pos - x;
        x := 0;
      } else if c == erase {
        DeleteBack();
      } else if c == 8 {
        if x > 0 {
          x := x - 1;
          pos := pos - 1;
        }
      } else if c == 9 {
        HorizontalTab();
      }
    }

    method EscapeChar(c: int)
      requires Valid()
      modifies this, mem
      ensures Valid() && View() == Escape(old(View()), c)
    {
      hide Row, Goto, Ri, Lf;
      state := 0;
      if c == '[' as int {
        state := 2;
      } else if c == 'E' as int {
        GotoXY(0, y + 1);
      } else if c == 'M' as int {
        ReverseFeed();
      } else if c == 'D' as int {
        LineFeed();
      } else if c == 'Z' as int {
      } else if x == '7' as int {
        SaveCur();
      } else if x == '8' as int {
        RestoreCur();
      }
    }

    method Decrement(k: nat)
      requires Valid() && k < NPAR
      modifies this`par
      ensures Valid() && View() == Less(old(View()), k)
    {
      if par[k] > 0 {
        par := par[k := par[k] - 1];
      }
    }

    method DefaultOne()
      requires Valid()
      modifies this`par
      ensures Valid() && View() == AtLeast1(old(View()))
    {
      if par[0] == 0 {
        par := par[0 := par[0] + 1];
      }
    }

    method SetRegion()
      requires Valid()
      modifies this`par, this`top, this`bottom
      ensures Valid() && View() == Region(old(View()))
    {
      Decrement(0);
      if par[1] == 0 {
        par := par[1 := LINES];
      }
      if par[0] < par[1] && par[1] <= LINES {
        top := par[0];
        bottom := par[1];
      }
    }

    method FinalChar(c: int)
      requires Valid()
      modifies this, mem
      ensures Valid() && View() == Final(old(View()), c)
    {
      hide Row, MoveBy, MoveTo, EditText, SetMode;
      state := 0;
      if MovesBy(c) {
        RelativeMove(c);
      } else if MovesTo(c) {
        AbsoluteMove(c);
      } else if EditsText(c) {
        TextEdit(c);
      } else {
        ModeChange(c);
      }
    }

    method RelativeMove(c: int)
      requires Valid() && MovesBy(c)
      modifies this
      ensures Valid() && View() == MoveBy(old(View()), c)
    {
      hide Row, Goto, AtLeast1;
      DefaultOne();
      if c == 'A' as int {
        GotoXY(x, y - par[0]);
      } else if c == 'B' as int || c == 'e' as int {
        GotoXY(x, y + par[0]);
      } else if c == 'C' as int || c == 'a' as int {
        GotoXY(x + par[0], y);
      } else if c == 'D' as int {
        GotoXY(x - par[0], y);
      } else if c == 'E' as int {
        GotoXY(0, y + par[0]);
      } else {
        GotoXY(0, y - par[0]);
      }
    }

    method AbsoluteMove(c: int)
      requires Valid() && MovesTo(c)
      modifies this
      ensures Valid() && View() == MoveTo(old(View()), c)
    {
      hide Row, Goto, Less;
      Decrement(0);
      if c == 'G' as int || c == '`' as int {
        GotoXY(par[0], y);
      } else if c == 'd' as int {
        GotoXY(x, par[0]);
      } else {
        Decrement(1);
        GotoXY(par[1], par[0]);
      }
    }

    method TextEdit(c: int)
      requires Valid() && EditsText(c)
      modifies this, mem
      ensures Valid() && View() == EditText(old(View()), c)
    {
      hide Row, EraseDisplay, EraseLine, EditTimes;
      if c == 'J' as int {
        CsiJ(par[0]);
      } else if c == 'K' as int {
        CsiK(par[0]);
      } else if c == 'L' as int {
        EditSome(LineIn, par[0]);
      } else if c == 'M' as int {
        EditSome(LineOut, par[0]);
      } else if c == 'P' as int {
        EditSome(CharOut, par[0]);
      } else {
        EditSome(CharIn, par[0]);
      }
    }

    method ModeChange(c: int)
      requires Valid()
      modifies this
      ensures Valid() && View() == SetMode(old(View()), c)
    {
      hide Row, Goto, Region, Attribute, Save;
      if c == 'm' as int {
        CsiM();
      } else if c == 'r' as int {
        SetRegion();
      } else if c == 's' as int {
        SaveCur();
      } else if c == 'u' as int {
        RestoreCur();
      }
    }

    method ParamChar(c: int)
      requires Valid()
      modifies this, mem
      ensures Valid() && View() == Params(old(View()), c)
    {
      hide Row, Final;
      if c == ';' as int && npar < NPAR - 1 {
        npar := npar + 1;
      } else if '0' as int <= c <= '9' as int {
        par := par[npar := U32(10 * par[npar] + c - '0' as int)];
      } else {
        FinalChar(c);
      }
    }

    /** One character of con_write's loop: the same on every kind of display. */
    method Write(c: int, erase: int)
      requires Valid()
      modifies this, mem
      ensures Valid() && View() == Feed(old(View()), c, erase)
    {
      hide Row, Plain, Escape, Params;
      if state == 0 {
        PlainChar(c, erase);
      } else if state == 1 {
        EscapeChar(c);
      } else if state == 2 {
        npar := 0;
        par := Zeros(NPAR);
        state := 3;
        ques := c == '?' as int;
        if !ques {
          ParamChar(c);
        }
      } else {
        ParamChar(c);
      }
    }

    method WriteAll(s: seq<int>, erase: int)
      requires Valid()
      modifies this, mem
      ensures Valid() && View() == FeedAll(old(View()), s, erase)
    {
      hide Row, Ok, Feed;
      ghost var t := View();
      for k := 0 to |s|
        invariant Valid() && View() == FeedAll(t, s[..k], erase)
      {
        assert s[..k + 1][..k] == s[..k];
        Write(s[k], erase);
      }
      assert s[..|s|] == s;
    }
  }

  /** Two displays that show the same thing go on showing the same thing, however they
      scroll. */
  method SameScreens(a: Screen, b: Screen, s: seq<int>, erase: int)
    requires a.Valid() && b.Valid() && a.View() == b.View() && a != b && a.mem != b.mem
    modifies a, a.mem, b, b.mem
    ensures a.Valid() && b.Valid() && a.View() == b.View() == FeedAll(old(a.View()), s, erase)
  {
    a.WriteAll(s, erase);
    b.WriteAll(s, erase);
  }

  lemma FillInPlace(m: seq<int>, o: nat, n: nat, a: nat, b: nat)
    requires a <= b <= n && o + n <= |m|
    ensures Fill(m, o + a, o + b)[o..o + n] == Fill(m[o..o + n], a, b)
  {
    var r := Fill(m, o + a, o + b);
    var got, want := r[o..o + n], Fill(m[o..o + n], a, b);
    forall i | 0 <= i < n
      ensures got[i] == want[i]
    {
      Slice(r, o, n, i);
      Slice(m, o, n, i);
    }
  }

  lemma Shifted(w: seq<int>, at: nat, k: nat)
    requires at + k < |w|
    ensures k == 0 ==> w[at := ERASED] == Opened(w, at, at + 1)
    ensures k > 0 ==> Opened(w, at, at + k)[at + k] == w[at + k]
    ensures k > 0 ==> Opened(w, at, at + k)[at + k := w[at + k - 1]] == Opened(w, at, at + k + 1)
  {
  }

  /** The first i cells from `at` have been closed up, the last of them twice there. */
  function Partly(w: seq<int>, at: nat, i: nat): (r: seq<int>)
    requires 0 < i && at + i <= |w|
    ensures |r| == |w|
  {
    Closed(w, at, at + i)[at + i - 1 := w[at + i - 1]]
  }

  lemma Pulled(w: seq<int>, at: nat, i: nat)
    requires 0 < i && at + i < |w|
    ensures Partly(w, at, i)[at + i - 1 := w[at + i]] == Partly(w, at, i + 1)
    ensures Partly(w, at, i)[at + i] == w[at + i]
  {
  }

  lemma PulledNone(w: seq<int>, at: nat)
    requires at < |w|
    ensures Partly(w, at, 1) == w
  {
  }

  lemma PulledLast(w: seq<int>, at: nat, n: nat)
    requires 0 < n && at + n <= |w|
    ensures Partly(w, at, n)[at + n - 1 := ERASED] == Closed(w, at, at + n)
  {
  }

  lemma EraseLineIs(t: Term, n: int)
    requires Ok(t)
    ensures Row(t.cols, t.y) + t.cols <= |t.screen|
    ensures var line := Row(t.cols, t.y);
            EraseLine(t, n) == if n < 0 || n > 2 || (n == 0 && t.x == t.cols) then t
              else t.(screen := Fill(t.screen, line + (if n == 0 then t.x else 0),
                                     line + (if n == 1 then t.x else t.cols)))
  {
    RowLe(t.cols, t.y, LINES);
    hide Row;
    if n == 0 && t.x == t.cols {
      var k := Row(t.cols, t.y) + t.cols;
      assert Fill(t.screen, k, k) == t.screen;
    }
  }

  lemma EditIs(t: Term)
    requires Ok(t) && t.x < t.cols
    ensures var p, end := Row(t.cols, t.y) + t.x, Row(t.cols, t.y) + t.cols;
            && p < end <= |t.screen|
            && InsertChar(t) == t.(screen := Opened(t.screen, p, end))
              && DeleteChar(t) == t.(screen := Closed(t.screen, p, end))
  {
    RowLe(t.cols, t.y, LINES);
  }

  lemma UpIs(w: seq<int>, cols: nat, top: nat, bottom: nat, a: nat, b: nat)
    requires top < bottom <= LINES && |w| == Row(cols, LINES) && a == Row(cols, top) && b == Row(cols, bottom)
    ensures a + cols <= b <= |w| && Up(w, cols, top, bottom) == UpAt(w, cols, a, b)
  {
    Rows(cols, top, bottom, 0);
  }

  lemma DownIs(w: seq<int>, cols: nat, top: nat, bottom: nat, a: nat, b: nat)
    requires top < bottom <= LINES && |w| == Row(cols, LINES) && a == Row(cols, top) && b == Row(cols, bottom)
    ensures a + cols <= b <= |w| && Down(w, cols, top, bottom) == DownAt(w, cols, a, b)
  {
    Rows(cols, top, bottom, 0);
  }

  lemma OkScreen(t: Term, s: seq<int>)
    requires Ok(t) && |s| == |t.screen|
    ensures Ok(t.(screen := s))
  {
  }

  function Zeros(n: nat): seq<int> {
    seq(n, _ => 0)
  }
}
