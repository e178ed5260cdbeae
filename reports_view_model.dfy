/**
 * The reports view model: one list of report items, fed by the child events of
 * the two remote paths "proximidad" and "movimiento".  The list is a field the
 * three helpers overwrite with a value computed by module ReportList; the
 * listener callbacks decode a snapshot and dispatch into those helpers.
 */
module ReportsViewModel {
  import opened Wrappers
  import opened Models
  import opened ReportList

  const PROXIMITY_KIND := "Proximidad"
  const MOTION_KIND := "Movimiento"

  /**
   * A child snapshot as a listener receives it: its key (absent when the store
   * gives none) and its value decoded as `T` (absent when `getValue` gives null).
   */
  datatype Snapshot<T> = Snapshot(key: Option<string>, value: Option<T>)

  /**
   * The item shown for a proximity event: it keeps the event's estado and
   * fecha, carries the given key, and is never mistaken for a motion item.
   */
  function ProximityItem(evt: ProximityEvent, key: string): (r: ReportItem)
    ensures r.estado == evt.estado && r.fecha == evt.fecha && r.key == key
    ensures r.tipo == PROXIMITY_KIND && r.tipo != MOTION_KIND
  {
    ReportItem(PROXIMITY_KIND, evt.estado, evt.fecha, key)
  }

  /**
   * The item shown for a motion event: its estado is the event's tipo, it keeps
   * the event's fecha, carries the given key, and is never mistaken for a
   * proximity item.
   */
  function MotionItem(evt: MotionEvent, key: string): (r: ReportItem)
    ensures r.estado == evt.tipo && r.fecha == evt.fecha && r.key == key
    ensures r.tipo == MOTION_KIND && r.tipo != PROXIMITY_KIND
  {
    ReportItem(MOTION_KIND, evt.tipo, evt.fecha, key)
  }

  class ReportsViewModel {
    /** `_reportes.value` */
    var reportes: seq<ReportItem>

    /** The list is always most recent first. */
    ghost predicate Valid()
      reads this
    {
      Sorted(reportes)
    }

    constructor ()
      ensures Valid() && reportes == []
    {
      reportes := [];
    }

    method AddReport(item: ReportItem)
      requires Valid()
      modifies this
      ensures Valid()
      ensures reportes == Added(old(reportes), item)
    {
      AddedSortedStable(reportes, item);
      reportes := Added(reportes, item);
    }

    method UpdateReport(key: string, newItem: ReportItem)
      requires Valid()
      modifies this
      ensures Valid()
      ensures reportes == Updated(old(reportes), key, newItem)
    {
      UpdatedSortedStable(reportes, key, newItem);
      reportes := Updated(reportes, key, newItem);
    }

    method RemoveReport(key: string)
      requires Valid()
      modifies this
      ensures Valid()
      ensures reportes == RemoveByKey(old(reportes), key)
    {
      RemoveSorted(reportes, key);
      reportes := RemoveByKey(reportes, key);
    }

    /**
     * `proximidadListener.onChildAdded`; `randomKey` stands for the UUID that is
     * drawn when the snapshot has no key.
     */
    method OnProximityChildAdded(snapshot: Snapshot<ProximityEvent>, randomKey: string)
      requires Valid()
      modifies this
      ensures Valid()
      ensures snapshot.value.None? ==> reportes == old(reportes)
      ensures snapshot.value.Some? ==>
        reportes == Added(old(reportes), ProximityItem(snapshot.value.value, snapshot.key.GetOr(randomKey)))
    {
      match snapshot.value
      case None =>
      case Some(evt) =>
        var key := snapshot.key.GetOr(randomKey);
        AddReport(ProximityItem(evt, key));
    }

    /** `proximidadListener.onChildChanged`: without a value or a key, nothing happens. */
    method OnProximityChildChanged(snapshot: Snapshot<ProximityEvent>)
      requires Valid()
      modifies this
      ensures Valid()
      ensures snapshot.value.None? || snapshot.key.None? ==> reportes == old(reportes)
      ensures snapshot.value.Some? && snapshot.key.Some? ==>
        reportes == Updated(old(reportes), snapshot.key.value,
                            ProximityItem(snapshot.value.value, snapshot.key.value))
    {
      match snapshot.value
      case None =>
      case Some(evt) =>
        match snapshot.key
        case None =>
        case Some(key) =>
          UpdateReport(key, ProximityItem(evt, key));
    }

    /** `proximidadListener.onChildRemoved`: the value is not looked at; without a key, nothing happens. */
    method OnProximityChildRemoved(snapshot: Snapshot<ProximityEvent>)
      requires Valid()
      modifies this
      ensures Valid()
      ensures snapshot.key.None? ==> reportes == old(reportes)
      ensures snapshot.key.Some? ==> reportes == RemoveByKey(old(reportes), snapshot.key.value)
    {
      match snapshot.key
      case None =>
      case Some(key) =>
        RemoveReport(key);
    }

    /** `movListener.onChildAdded`: the item's estado is the event's tipo. */
    method OnMotionChildAdded(snapshot: Snapshot<MotionEvent>, randomKey: string)
      requires Valid()
      modifies this
      ensures Valid()
      ensures snapshot.value.None? ==> reportes == old(reportes)
      ensures snapshot.value.Some? ==>
        reportes == Added(old(reportes), MotionItem(snapshot.value.value, snapshot.key.GetOr(randomKey)))
    {
      match snapshot.value
      case None =>
      case Some(evt) =>
        var key := snapshot.key.GetOr(randomKey);
        AddReport(MotionItem(evt, key));
    }

    /** `movListener.onChildChanged` */
    method OnMotionChildChanged(snapshot: Snapshot<MotionEvent>)
      requires Valid()
      modifies this
      ensures Valid()
      ensures snapshot.value.None? || snapshot.key.None? ==> reportes == old(reportes)
      ensures snapshot.value.Some? && snapshot.key.Some? ==>
        reportes == Updated(old(reportes), snapshot.key.value,
                            MotionItem(snapshot.value.value, snapshot.key.value))
    {
      match snapshot.value
      case None =>
      case Some(evt) =>
        match snapshot.key
        case None =>
        case Some(key) =>
          UpdateReport(key, MotionItem(evt, key));
    }

    /** `movListener.onChildRemoved` */
    method OnMotionChildRemoved(snapshot: Snapshot<MotionEvent>)
      requires Valid()
      modifies this
      ensures Valid()
      ensures snapshot.key.None? ==> reportes == old(reportes)
      ensures snapshot.key.Some? ==> reportes == RemoveByKey(old(reportes), snapshot.key.value)
    {
      match snapshot.key
      case None =>
      case Some(key) =>
        RemoveReport(key);
    }
  }
}
