/** The picture a consistent grid shows, as a pure function of the grid size, the
    snake and the food, and how a normal move and a growth move change it. */
module SnakeBoard {
  import opened SnakeTypes

  predicate InGrid(w: nat, h: nat, p: Pos) {
    p.0 < w && p.1 < h
  }

  /** The border ring: column 0, row 0, the last column and the last row. */
  predicate OnBorder(w: nat, h: nat, p: Pos) {
    p.0 == 0 || p.1 == 0 || p.0 + 1 == w || p.1 + 1 == h
  }

  predicate Interior(w: nat, h: nat, p: Pos) {
    InGrid(w, h, p) && !OnBorder(w, h, p)
  }

  predicate Distinct(s: seq<Pos>) {
    forall a, b :: 0 <= a < b < |s| ==> s[a] != s[b]
  }

  /** The snake and the food stand inside the border and never on each other. */
  predicate WellPlaced(w: nat, h: nat, head: Pos, body: seq<Pos>, food: Pos) {
    && Interior(w, h, head)
    && (forall k :: 0 <= k < |body| ==> Interior(w, h, body[k]))
    && Interior(w, h, food)
    && Distinct(body)
    && head !in body
    && food != head
    && food !in body
  }

  /** The type of the cell at p in a consistent grid. */
  function Layout(w: nat, h: nat, head: Pos, body: seq<Pos>, food: Pos, p: Pos): CellType {
    if OnBorder(w, h, p) then Wall
    else if p == head then SnakeHead
    else if p in body then SnakeBody
    else if p == food then Food
    else Empty
  }

  /** What the layout says about a well-placed snake: the border is Wall, the SnakeBody
      cells are exactly the body's, and the head is the one SnakeHead cell. */
  lemma LayoutMeaning(w: nat, h: nat, head: Pos, body: seq<Pos>, food: Pos, p: Pos)
    requires WellPlaced(w, h, head, body, food) && InGrid(w, h, p)
    ensures Layout(w, h, head, body, food, p) == Wall <==> OnBorder(w, h, p)
    ensures Layout(w, h, head, body, food, p) == SnakeBody <==> p in body
    ensures Layout(w, h, head, body, food, p) == SnakeHead <==> p == head
    ensures Layout(w, h, head, body, food, p) == Food <==> p == food
  {
  }

  /** push_front of the old head onto the body deque. */
  function PushFront(head: Pos, body: seq<Pos>): (r: seq<Pos>)
    ensures |r| == |body| + 1 && r[0] == head && r[1..] == body
  {
    [head] + body
  }

  /** The body after a normal move: push_front of the old head, then pop_back. */
  function Moved(head: Pos, body: seq<Pos>): (r: seq<Pos>)
    ensures |r| == |body|
    ensures body != [] ==> r[0] == head && r[1..] == body[..|body| - 1]
  {
    PushFront(head, body)[..|body|]
  }

  /** The coordinate pop_back returns in a normal move: the tail, or the old head
      itself when the body is empty. */
  function Vacated(head: Pos, body: seq<Pos>): (r: Pos)
    ensures body == [] ==> r == head
    ensures body != [] ==> r == body[|body| - 1]
  {
    PushFront(head, body)[|body|]
  }

  /** pop_back right after push_front yields the vacated coordinate and leaves the
      moved body. */
  lemma PopAfterPush(head: Pos, body: seq<Pos>)
    ensures var s := PushFront(head, body);
            && s[|s| - 1] == Vacated(head, body)
            && s[..|s| - 1] == Moved(head, body)
  {
  }

  /** A normal move onto an Empty cell keeps the snake well placed and changes the
      picture in exactly three places: the target becomes the head, the vacated
      coordinate becomes Empty, and the old head becomes body unless it was vacated. */
  lemma {:induction false} MoveLayout(w: nat, h: nat, head: Pos, body: seq<Pos>, food: Pos, target: Pos)
    requires WellPlaced(w, h, head, body, food)
    requires InGrid(w, h, target) && Layout(w, h, head, body, food, target) == Empty
    ensures WellPlaced(w, h, target, Moved(head, body), food)
    ensures forall p :: Layout(w, h, target, Moved(head, body), food, p) ==
                         (if p == target then SnakeHead
                          else if p == Vacated(head, body) then Empty
                          else if p == head then SnakeBody
                          else Layout(w, h, head, body, food, p))
  {
    var m := Moved(head, body);
    if body == [] {
      assert m == [];
    } else {
      var n := |body|;
      var front := body[..n - 1];
      assert m == [head] + front;
      forall p ensures p in front <==> p in body && p != body[n - 1] {
        if p in front {
          var k :| 0 <= k < n - 1 && front[k] == p;
          assert body[k] == p;
        }
        if p in body && p != body[n - 1] {
          var k :| 0 <= k < n && body[k] == p;
          assert front[k] == p;
        }
      }
      forall a, b | 0 <= a < b < |m| ensures m[a] != m[b] {
        if a > 0 {
          assert m[a] == body[a - 1] && m[b] == body[b - 1];
        } else {
          assert m[b] == body[b - 1];
        }
      }
      forall k | 0 <= k < |m| ensures Interior(w, h, m[k]) {
        if k > 0 { assert m[k] == body[k - 1]; }
      }
    }
  }

  /** A growth move onto the food, with new food spawned on a cell that was Empty
      before, keeps the snake well placed; the food cell becomes the head, the old head
      becomes body, the spawned cell becomes Food, and nothing becomes Empty. */
  lemma {:induction false} GrowLayout(w: nat, h: nat, head: Pos, body: seq<Pos>, food: Pos, spawn: Pos)
    requires WellPlaced(w, h, head, body, food)
    requires InGrid(w, h, spawn) && Layout(w, h, head, body, food, spawn) == Empty
    ensures WellPlaced(w, h, food, PushFront(head, body), spawn)
    ensures forall p :: Layout(w, h, food, PushFront(head, body), spawn, p) ==
                         (if p == food then SnakeHead
                          else if p == head then SnakeBody
                          else if p == spawn then Food
                          else Layout(w, h, head, body, food, p))
  {
    var g := PushFront(head, body);
    forall p ensures p in g <==> p == head || p in body {
      if p in g && p != head {
        var k :| 0 <= k < |g| && g[k] == p;
        assert body[k - 1] == p;
      }
      if p in body {
        var k :| 0 <= k < |body| && body[k] == p;
        assert g[k + 1] == p;
      }
    }
    forall a, b | 0 <= a < b < |g| ensures g[a] != g[b] {
      assert g[b] == body[b - 1];
      if a > 0 { assert g[a] == body[a - 1]; }
    }
    forall k | 0 <= k < |g| ensures Interior(w, h, g[k]) {
      if k > 0 { assert g[k] == body[k - 1]; }
    }
  }
}
