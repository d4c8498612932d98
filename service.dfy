/**
 HexIndexService and its cached variant, as one class: `cache` is None for the
 class that rebuilds the lookup on every query and Some(map) for the one that
 builds it once at construction.
 */
module Service {
  import opened Wrappers
  import opened Grid
  import opened Coverage
  import opened Records
  import opened Aggregation

  /** The bounds core.py hard-codes (its base resolution still comes from the settings). */
  function CoreConfig(baseResolution: int): Config
  {
    Config(baseResolution, -120, -47, 1, 100)
  }

  /** The ring loop ends around the point's centre cell, when latlng_to_cell accepts the point. */
  ghost predicate CenterReaches(geo: Geometry, lat: real, lng: real, res: int, target: int)
  {
    geo.latLngToCell(lat, lng, res).Some? ==> Reaches(geo, geo.latLngToCell(lat, lng, res).value, target)
  }

  /** When building the records raises: a rejected centre, or a draw from an empty range for a non-empty coverage. */
  predicate CreationFails(geo: Geometry, lat: real, lng: real, target: int, config: Config)
  {
    geo.latLngToCell(lat, lng, config.baseResolution).None? || (0 < target && !RangesNonEmpty(config))
  }

  class HexIndexService {
    const geo: Geometry
    const config: Config
    var hexes: seq<Record>
    var cache: Option<map<Cell, Record>>

    /** One record per cell, and a cached lookup that agrees with the records. */
    ghost predicate Valid()
      reads this
    {
      DistinctCells(hexes) && (cache.Some? ==> cache.value == Index(hexes))
    }

    /** Stores the records; the cached variant also computes its lookup once, here. */
    constructor (geo: Geometry, config: Config, hexes: seq<Record>, cached: bool)
      requires DistinctCells(hexes)
      ensures Valid()
      ensures this.geo == geo && this.config == config && this.hexes == hexes
      ensures cache == if cached then Some(Index(hexes)) else None
    {
      this.geo := geo;
      this.config := config;
      this.hexes := hexes;
      cache := if cached then Some(Index(hexes)) else None;
    }

    /**
     create_hexes: the coverage of the target area around the point's cell, one
     record per cell, with a level and a cell_id drawn from the inclusive ranges.
     */
    static method CreateHexes(geo: Geometry, lat: real, lng: real, target: int, config: Config)
      returns (r: Result<seq<Record>>)
      requires CenterReaches(geo, lat, lng, config.baseResolution, target)
      ensures r.Err? <==> CreationFails(geo, lat, lng, target, config)
      ensures r.Ok? ==>
        var center := geo.latLngToCell(lat, lng, config.baseResolution).value;
        && DistinctCells(r.value)
        && |r.value| == |CellsOf(r.value)|
        && IsCoverage(geo, center, target, CellsOf(r.value))
        && (CellsOf(r.value) == {} <==> target <= 0)
        && (geo.ring(center, 0) == [center] ==> (center in CellsOf(r.value) <==> 0 < target))
        && (forall h :: h in r.value ==> InRange(config, h))
    {
      var found := geo.latLngToCell(lat, lng, config.baseResolution);
      if found.None? {
        return Err(GridError);
      }
      var center := found.value;
      var cells, rings, area := CoverDisk(geo, center, target);
      r := DrawRecords(cells, config);
    }

    /**
     The list comprehension of create_hexes: one record per cell of the set, in
     the set's iteration order, with a level and a cell_id drawn per cell.
     */
    static method DrawRecords(cells: set<Cell>, config: Config) returns (r: Result<seq<Record>>)
      ensures r.Err? <==> cells != {} && !RangesNonEmpty(config)
      ensures r.Ok? ==>
        && CellsOf(r.value) == cells
        && DistinctCells(r.value)
        && |r.value| == |cells|
        && (forall h :: h in r.value ==> InRange(config, h))
    {
      var rest, hs := cells, [];
      assert CellsOf(hs) == {};
      while rest != {}
        invariant Drawn(cells, rest, hs, config)
        invariant hs != [] ==> RangesNonEmpty(config)
        decreases |rest|
      {
        var cell :| cell in rest;
        if !(config.levelLow <= config.levelHigh && config.cellIdFrom <= config.cellIdTo) {
          return Err(EmptyRange);
        }
        var level :| config.levelLow <= level <= config.levelHigh;
        var cellId :| config.cellIdFrom <= cellId <= config.cellIdTo;
        var h := Record(cell, level, cellId);
        DrawnStep(cells, rest, hs, config, h);
        hs := hs + [h];
        rest := rest - {cell};
      }
      return Ok(hs);
    }

    /**
     HexIndexService(latitude, longitude, radius), or HexIndexServiceCached when
     cached holds: the records of the coverage, plus the lookup for the cached one.
     */
    static method Create(geo: Geometry, lat: real, lng: real, target: int, config: Config, cached: bool)
      returns (r: Result<HexIndexService>)
      requires CenterReaches(geo, lat, lng, config.baseResolution, target)
      ensures r.Err? <==> CreationFails(geo, lat, lng, target, config)
      ensures r.Ok? ==>
        var s, center := r.value, geo.latLngToCell(lat, lng, config.baseResolution).value;
        && fresh(s) && s.Valid()
        && s.geo == geo && s.config == config
        && (s.cache.Some? <==> cached)
        && IsCoverage(geo, center, target, CellsOf(s.hexes))
        && (CellsOf(s.hexes) == {} <==> target <= 0)
        && (geo.ring(center, 0) == [center] ==> (center in CellsOf(s.hexes) <==> 0 < target))
        && (forall h :: h in s.hexes ==> InRange(config, h))
    {
      var hexes := CreateHexes(geo, lat, lng, target, config);
      if hexes.Err? {
        return Err(hexes.error);
      }
      var s := new HexIndexService(geo, config, hexes.value, cached);
      return Ok(s);
    }

    /** The service of core.py, with its hard-coded ranges, which are never empty. */
    static method CreateCore(geo: Geometry, lat: real, lng: real, target: int, baseResolution: int, cached: bool)
      returns (r: Result<HexIndexService>)
      requires CenterReaches(geo, lat, lng, baseResolution, target)
      ensures r.Err? <==> geo.latLngToCell(lat, lng, baseResolution).None?
      ensures r.Ok? ==> fresh(r.value) && r.value.Valid() && (r.value.cache.Some? <==> cached)
      ensures r.Ok? ==> r.value.geo == geo && r.value.config == CoreConfig(baseResolution)
      ensures r.Ok? ==>
        var s, center := r.value, geo.latLngToCell(lat, lng, baseResolution).value;
        && IsCoverage(geo, center, target, CellsOf(s.hexes))
        && (CellsOf(s.hexes) == {} <==> target <= 0)
        && (geo.ring(center, 0) == [center] ==> (center in CellsOf(s.hexes) <==> 0 < target))
      ensures r.Ok? ==> forall h :: h in r.value.hexes ==> -120 <= h.level <= -47 && 1 <= h.cellId <= 100
    {
      r := Create(geo, lat, lng, target, CoreConfig(baseResolution), cached);
    }

    /** as_dict: the cached lookup, or the one rebuilt from the records; the two agree. */
    function AsDict(): (m: map<Cell, Record>)
      reads this
      requires Valid()
      ensures m == Index(hexes)
      ensures m.Keys == CellsOf(hexes)
    {
      if cache.Some? then cache.value else Index(hexes)
    }

    /**
     The records of the listed cells present in the lookup, in listing order;
     an error when the listing itself could not be produced.
     */
    function Lookup(listing: Option<seq<Cell>>): (r: Result<seq<Record>>)
      reads this
      requires Valid()
      ensures r.Err? <==> listing.None?
      ensures r.Ok? ==> r.value == Select(listing.value, Index(hexes))
      ensures r.Ok? ==> |r.value| <= |listing.value|
      ensures r.Ok? ==> forall x :: x in r.value <==> x in hexes && x.cell in listing.value
      ensures r.Ok? ==> (r.value == [] <==> forall h :: h in hexes ==> h.cell !in listing.value)
    {
      match listing
      case None => Err(GridError)
      case Some(cells) =>
        SelectFromIndex(cells, hexes);
        Ok(Select(cells, AsDict()))
    }

    /** hex: the records of the children of a parent cell at the base resolution. */
    function Hex(parent: Cell): (r: Result<seq<Record>>)
      reads this
      requires Valid()
      ensures r.Err? <==> geo.children(parent, config.baseResolution).None?
      ensures r.Ok? ==>
        var children := geo.children(parent, config.baseResolution).value;
        && r.value == Select(children, Index(hexes))
        && (forall x :: x in r.value <==> x in hexes && x.cell in children)
        && (r.value == [] <==> forall h :: h in hexes ==> h.cell !in children)
    {
      Lookup(geo.children(parent, config.baseResolution))
    }

    /** bbox: the records of the base-resolution cells of a polygon. */
    function Bbox(polygon: Polygon): (r: Result<seq<Record>>)
      reads this
      requires Valid()
      ensures r.Err? <==> geo.polygonCells(polygon, config.baseResolution).None?
      ensures r.Ok? ==>
        var cells := geo.polygonCells(polygon, config.baseResolution).value;
        && r.value == Select(cells, Index(hexes))
        && |r.value| <= |cells|
        && (forall x :: x in r.value <==> x in hexes && x.cell in cells)
    {
      Lookup(geo.polygonCells(polygon, config.baseResolution))
    }

    /**
     avg: one aggregate per (ancestor at res, cell_id) in first-seen order, with
     the median level of its group; an error when some cell has no ancestor at res.
     */
    method Avg(res: int) returns (r: Result<seq<Aggregate>>)
      ensures r.Err? <==> !Resolvable(geo, res, hexes)
      ensures r.Ok? ==> r.value == Summary(Pairs(geo, res, hexes))
    {
      var keys: seq<Key> := [];
      var groups: map<Key, seq<int>> := map[];
      var i := 0;
      while i < |hexes|
        invariant 0 <= i <= |hexes|
        invariant Resolvable(geo, res, hexes[..i])
        invariant Grouped(Pairs(geo, res, hexes[..i]), keys, groups)
      {
        var h := hexes[i];
        var parent := geo.parent(h.cell, res);
        if parent.None? {
          assert !geo.parent(hexes[i].cell, res).Some?;
          return Err(GridError);
        }
        var key := (parent.value, h.cellId);
        assert hexes[..i + 1] == hexes[..i] + [h];
        PairsSnoc(geo, res, hexes[..i], h);
        if key !in groups {
          GroupedNewKey(Pairs(geo, res, hexes[..i]), keys, groups, key, h.level);
          groups := groups[key := [h.level]];
          keys := keys + [key];
        } else {
          GroupedOldKey(Pairs(geo, res, hexes[..i]), keys, groups, key, h.level);
          groups := groups[key := groups[key] + [h.level]];
        }
        i := i + 1;
      }
      assert hexes[..i] == hexes;
      r := Ok(seq(|keys|, j requires 0 <= j < |keys| => Aggregate(keys[j].0, keys[j].1, Median(groups[keys[j]]))));
    }
  }

  /**
   The plain and the cached service answer every query alike when they hold
   the same records: caching the lookup changes only when it is computed.
   */
  lemma CachedAgrees(plain: HexIndexService, cached: HexIndexService, parent: Cell, polygon: Polygon)
    requires plain.Valid() && cached.Valid()
    requires plain.cache.None? && cached.cache.Some?
    requires plain.geo == cached.geo && plain.config == cached.config && plain.hexes == cached.hexes
    ensures plain.AsDict() == cached.AsDict()
    ensures plain.Hex(parent) == cached.Hex(parent)
    ensures plain.Bbox(polygon) == cached.Bbox(polygon)
  {
  }

}
