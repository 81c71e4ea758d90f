/** What a render pass writes: the cells it draws, in the column-major order of the
    grid, each recorded by the coordinates it stores and the type it shows. */
module SnakeRender {
  import opened SnakeTypes

  /** One drawn cell: where it was drawn and what it showed. */
  type Drawn = (Pos, CellType)

  function Entry(c: Cell): Drawn {
    ((c.x, c.y), c.kind)
  }

  /** Whether a pass draws cell c: every cell when `all` is set, else only a changed one. */
  predicate Drawable(c: Cell, all: bool) {
    all || c.changed
  }

  /** The cells a pass draws from rows 0 .. n-1 of column i. */
  ghost function ColumnFrame(g: array2<Cell>, i: nat, n: nat, all: bool): seq<Drawn>
    reads g
    requires i < g.Length0 && n <= g.Length1
    decreases n
  {
    if n == 0 then []
    else ColumnFrame(g, i, n - 1, all) + (if Drawable(g[i, n - 1], all) then [Entry(g[i, n - 1])] else [])
  }

  /** The cells a pass draws from columns 0 .. m-1. */
  ghost function GridFrame(g: array2<Cell>, m: nat, all: bool): seq<Drawn>
    reads g
    requires m <= g.Length0
    decreases m
  {
    if m == 0 then [] else GridFrame(g, m - 1, all) + ColumnFrame(g, m - 1, g.Length1, all)
  }

  lemma {:induction false} ColumnFrameMembers(g: array2<Cell>, i: nat, n: nat, all: bool)
    requires i < g.Length0 && n <= g.Length1
    ensures forall e :: e in ColumnFrame(g, i, n, all) <==>
                        exists j :: 0 <= j < n && Drawable(g[i, j], all) && e == Entry(g[i, j])
  {
    if n > 0 {
      ColumnFrameMembers(g, i, n - 1, all);
      forall e | e in ColumnFrame(g, i, n, all)
        ensures exists j :: 0 <= j < n && Drawable(g[i, j], all) && e == Entry(g[i, j])
      {
        if e !in ColumnFrame(g, i, n - 1, all) {
          assert Drawable(g[i, n - 1], all) && e == Entry(g[i, n - 1]);
        }
      }
    }
  }

  /** A pass draws exactly the drawable cells of the columns it has covered. */
  lemma {:induction false} GridFrameMembers(g: array2<Cell>, m: nat, all: bool)
    requires m <= g.Length0
    ensures forall e :: e in GridFrame(g, m, all) <==>
                        exists i, j :: 0 <= i < m && 0 <= j < g.Length1 && Drawable(g[i, j], all) && e == Entry(g[i, j])
  {
    if m > 0 {
      GridFrameMembers(g, m - 1, all);
      ColumnFrameMembers(g, m - 1, g.Length1, all);
      forall e | e in GridFrame(g, m, all)
        ensures exists i, j :: 0 <= i < m && 0 <= j < g.Length1 && Drawable(g[i, j], all) && e == Entry(g[i, j])
      {
        if e !in GridFrame(g, m - 1, all) {
          assert e in ColumnFrame(g, m - 1, g.Length1, all);
          var j :| 0 <= j < g.Length1 && Drawable(g[m - 1, j], all) && e == Entry(g[m - 1, j]);
        }
      }
      forall i, j | 0 <= i < m && 0 <= j < g.Length1 && Drawable(g[i, j], all)
        ensures Entry(g[i, j]) in GridFrame(g, m, all)
      {
        if i == m - 1 {
          assert Entry(g[i, j]) in ColumnFrame(g, m - 1, g.Length1, all);
        } else {
          assert Entry(g[i, j]) in GridFrame(g, m - 1, all);
        }
      }
    }
  }

  /** A full pass draws one entry per cell. */
  lemma {:induction false} FullFrameLength(g: array2<Cell>, m: nat)
    requires m <= g.Length0
    ensures |GridFrame(g, m, true)| == m * g.Length1
  {
    if m > 0 {
      FullFrameLength(g, m - 1);
      ColumnFrameLength(g, m - 1, g.Length1);
      assert (m - 1) * g.Length1 + g.Length1 == m * g.Length1;
    }
  }

  lemma {:induction false} ColumnFrameLength(g: array2<Cell>, i: nat, n: nat)
    requires i < g.Length0 && n <= g.Length1
    ensures |ColumnFrame(g, i, n, true)| == n
  {
    if n > 0 { ColumnFrameLength(g, i, n - 1); }
  }

  /** A partial pass over a grid with no changed cell draws nothing. */
  lemma {:induction false} CleanGridDrawsNothing(g: array2<Cell>, m: nat)
    requires m <= g.Length0
    requires forall i, j :: 0 <= i < m && 0 <= j < g.Length1 ==> !g[i, j].changed
    ensures GridFrame(g, m, false) == []
  {
    if m > 0 {
      CleanGridDrawsNothing(g, m - 1);
      CleanColumnDrawsNothing(g, m - 1, g.Length1);
    }
  }

  lemma {:induction false} CleanColumnDrawsNothing(g: array2<Cell>, i: nat, n: nat)
    requires i < g.Length0 && n <= g.Length1
    requires forall j :: 0 <= j < n ==> !g[i, j].changed
    ensures ColumnFrame(g, i, n, false) == []
  {
    if n > 0 { CleanColumnDrawsNothing(g, i, n - 1); }
  }
}
