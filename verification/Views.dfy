/**
 The view of a session: which terminals it has, and how they are laid out on its canvas.
 */
module Views {
  import opened Basics
  import opened Options
  import opened Layouts
  import opened Dividers

  datatype Canvas = Canvas(columns: u16, rows: u16)

  /** `title` stands for what a view says beyond its terminals and their geometry. */
  datatype View = View(session: Id, view: Id, revision: nat, canvas: Canvas, terminals: seq<Id>, layout: Layout,
                       panes: seq<PaneGeometry>, zoomed: Option<Id>, title: string)

  predicate SameView(a: View, b: View) {
    a.session == b.session && a.view == b.view
  }

  predicate SameGeometry(a: View, b: View) {
    && a.view == b.view && a.session == b.session && a.revision == b.revision && a.canvas == b.canvas
    && a.zoomed == b.zoomed && a.layout == b.layout && a.panes == b.panes
  }

  /** A pane of the view shows this terminal. */
  predicate Displays(view: View, id: Id) {
    exists pane :: pane in view.panes && pane.id == id
  }

  function PanesWithout(panes: seq<PaneGeometry>, removed: set<Id>): seq<PaneGeometry> {
    if panes == [] then []
    else (if panes[0].id in removed then [] else [panes[0]]) + PanesWithout(panes[1..], removed)
  }

  /** The split tree holds the terminals of the view. */
  ghost predicate Consistent(view: View) {
    forall id :: id in Leaves(view.layout) <==> id in view.terminals
  }
}
