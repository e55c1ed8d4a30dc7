/**
  The atomic data unit of the solar energy log: one week's record, holding a
  free-form week label, the energy produced that week (kWh) and the
  predominant weather.  Also the two small wrapper types the rest of the
  model uses for absent values and failures.
 */
module Records {

  datatype Option<T> = None | Some(value: T)

  datatype Result<T, E> = Ok(value: T) | Err(error: E)

  /** The three weather conditions the entry prompt accepts. */
  datatype Weather = Clear | Rainy | Cloudy

  /** The display form of a weather condition, as stored in a record. */
  function Name(w: Weather): string
  {
    match w
    case Clear => "Clear"
    case Rainy => "Rainy"
    case Cloudy => "Cloudy"
  }

  /** One entry of the store: a dictionary with keys week, total_energy and weather. */
  datatype Record = Record(week: string, totalEnergy: real, weather: Weather)

  /** What entry and edit guarantee of a record: its energy is at least 0. */
  predicate ValidRecord(r: Record)
  {
    r.totalEnergy >= 0.0
  }

  predicate AllValid(data: seq<Record>)
  {
    forall i :: 0 <= i < |data| ==> ValidRecord(data[i])
  }

  /** The energies of the records, in store order. */
  function Energies(data: seq<Record>): (es: seq<real>)
    ensures |es| == |data|
    ensures forall i :: 0 <= i < |data| ==> es[i] == data[i].totalEnergy
  {
    if data == [] then [] else Energies(data[..|data| - 1]) + [data[|data| - 1].totalEnergy]
  }
}
