/**
 The hexagonal grid library (h3) that the index calls into. Its geometry is not
 modelled: every primitive is a parameter, and a primitive that raises on bad
 input returns None here.
 */
module Grid {
  import opened Wrappers

  /** An h3 cell index in its text form. */
  type Cell = string

  /** A polygon given by its (longitude, latitude) vertices; only the grid interprets it. */
  datatype Polygon = Polygon(vertices: seq<(real, real)>)

  datatype Geometry = Geometry(
    /** latlng_to_cell: the cell of a resolution that contains a point */
    latLngToCell: (real, real, int) -> Option<Cell>,
    /** grid_ring: the cells at exactly grid distance k from a cell */
    ring: (Cell, nat) -> seq<Cell>,
    /** cell_area: the area of a cell, in a whole unit shared with the target area */
    area: Cell -> nat,
    /** cell_to_children: the descendants of a cell at a finer resolution */
    children: (Cell, int) -> Option<seq<Cell>>,
    /** cell_to_parent: the ancestor of a cell at a coarser resolution */
    parent: (Cell, int) -> Option<Cell>,
    /** geo_to_cells: the cells of a resolution whose centre lies in a polygon */
    polygonCells: (Polygon, int) -> Option<seq<Cell>>)
}
