/** The dashboard's `dcc.Store` components and the four `store_*_selections` callbacks of
    model.py that write them: a callback that was not triggered leaves the stored selection as
    it is; otherwise it starts from the stored dictionary (or an empty one) and overwrites
    exactly its own keys. */
module Selections {
  import opened Options

  /** The JSON values the dashboard's controls produce. */
  datatype Value =
    | Null                              // `None`, an unset dropdown
    | Number(n: int)                    // a slider position
    | Text(s: string)                   // a dropdown, radio or tab value
    | Years(lo: int, hi: int)           // a range slider's `[lo, hi]`
    | Texts(items: seq<string>)         // a multi-select dropdown

  /** A stored selection: `None` before the first write. */
  type Selection = Option<map<string, Value>>

  /** `data = data or {}` followed by `data.update(updates)`. */
  function Merged(data: Selection, updates: map<string, Value>): (r: map<string, Value>)
    ensures forall k :: k in r <==> k in updates || (data.Some? && k in data.value)
    ensures forall k :: k in updates ==> r[k] == updates[k]
    ensures data.Some? ==> forall k :: k in data.value && k !in updates ==> r[k] == data.value[k]
  {
    var base := if data.Some? then data.value else map[];
    base + updates
  }

  /** An absent selection and an empty one merge alike: `None or {}` and `{} or {}` are both a
      fresh empty dictionary. */
  lemma MergedFromNothing(updates: map<string, Value>)
    ensures Merged(None, updates) == updates && Merged(Some(map[]), updates) == updates
  {
  }

  /** Merging the same keys twice keeps the second values: a later write wins. */
  lemma MergedTwice(data: Selection, first: map<string, Value>, second: map<string, Value>)
    requires first.Keys == second.Keys
    ensures Merged(Some(Merged(data, first)), second) == Merged(data, second)
  {
    var a := Merged(Some(Merged(data, first)), second);
    var b := Merged(data, second);
    assert a.Keys == b.Keys;
    forall k | k in a ensures a[k] == b[k] {
    }
  }

  /** The keys `store_item_selections` writes (lines 338-342). */
  function ItemUpdates(item: Value, years: Value, vizType: Value): (u: map<string, Value>)
    ensures u.Keys == {"item", "years", "viz_type"}
    ensures u["item"] == item && u["years"] == years && u["viz_type"] == vizType
  {
    map["item" := item, "years" := years, "viz_type" := vizType]
  }

  /** The keys `store_state_selections` writes (lines 360-365). */
  function StateUpdates(state: Value, regionType: Value, years: Value, vizType: Value): (u: map<string, Value>)
    ensures u.Keys == {"state", "region_type", "years", "viz_type"}
    ensures u["state"] == state && u["region_type"] == regionType && u["years"] == years &&
      u["viz_type"] == vizType
  {
    map["state" := state, "region_type" := regionType, "years" := years, "viz_type" := vizType]
  }

  /** The keys `store_compare_selections` writes (lines 385-392). */
  function CompareUpdates(items: Value, states: Value, regionType: Value, years: Value,
                          activeTab: Value, vizType: Value): (u: map<string, Value>)
    ensures u.Keys == {"items", "states", "region_type", "years", "active_tab", "viz_type"}
    ensures u["items"] == items && u["states"] == states && u["region_type"] == regionType &&
      u["years"] == years && u["active_tab"] == activeTab && u["viz_type"] == vizType
  {
    map["items" := items, "states" := states, "region_type" := regionType, "years" := years,
        "active_tab" := activeTab, "viz_type" := vizType]
  }

  /** The keys `store_forecast_selections` writes (lines 410-415). */
  function ForecastUpdates(item: Value, histYears: Value, period: Value, forecastMethod: Value): (u: map<string, Value>)
    ensures u.Keys == {"item", "hist_years", "period", "method"}
    ensures u["item"] == item && u["hist_years"] == histYears && u["period"] == period &&
      u["method"] == forecastMethod
  {
    map["item" := item, "hist_years" := histYears, "period" := period, "method" := forecastMethod]
  }

  /** One `dcc.Store` and the callback that writes it. */
  class SelectionStore {
    var data: Selection

    /** A store that holds nothing yet. */
    constructor ()
      ensures data == None
    {
      data := None;
    }

    /** The shared shape of the four callbacks: untriggered, the stored value is returned as it
        is; triggered, the callback's keys are overwritten and every other key is kept. */
    method Store(triggered: bool, updates: map<string, Value>) returns (result: Selection)
      modifies this
      ensures !triggered ==> data == old(data)
      ensures triggered ==> data == Some(Merged(old(data), updates))
      ensures result == data
    {
      if !triggered {
        return data;
      }
      var current := if data.Some? then data.value else map[];
      current := current + updates;
      data := Some(current);
      result := data;
    }

    /** `store_item_selections` (lines 332-343). */
    method StoreItemSelections(triggered: bool, item: Value, years: Value, vizType: Value)
      returns (result: Selection)
      modifies this
      ensures !triggered ==> data == old(data)
      ensures triggered ==> data == Some(Merged(old(data), ItemUpdates(item, years, vizType)))
      ensures result == data
    {
      result := Store(triggered, ItemUpdates(item, years, vizType));
    }

    /** `store_state_selections` (lines 354-366). */
    method StoreStateSelections(triggered: bool, state: Value, regionType: Value, years: Value,
                                vizType: Value) returns (result: Selection)
      modifies this
      ensures !triggered ==> data == old(data)
      ensures triggered ==> data == Some(Merged(old(data), StateUpdates(state, regionType, years, vizType)))
      ensures result == data
    {
      result := Store(triggered, StateUpdates(state, regionType, years, vizType));
    }

    /** `store_compare_selections` (lines 379-393). */
    method StoreCompareSelections(triggered: bool, items: Value, states: Value, regionType: Value,
                                  years: Value, activeTab: Value, vizType: Value)
      returns (result: Selection)
      modifies this
      ensures !triggered ==> data == old(data)
      ensures triggered ==>
        data == Some(Merged(old(data), CompareUpdates(items, states, regionType, years, activeTab, vizType)))
      ensures result == data
    {
      result := Store(triggered, CompareUpdates(items, states, regionType, years, activeTab, vizType));
    }

    /** `store_forecast_selections` (lines 404-416). */
    method StoreForecastSelections(triggered: bool, item: Value, histYears: Value, period: Value,
                                   forecastMethod: Value) returns (result: Selection)
      modifies this
      ensures !triggered ==> data == old(data)
      ensures triggered ==> data == Some(Merged(old(data), ForecastUpdates(item, histYears, period, forecastMethod)))
      ensures result == data
    {
      result := Store(triggered, ForecastUpdates(item, histYears, period, forecastMethod));
    }
  }
}
