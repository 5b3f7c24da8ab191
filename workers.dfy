/**
 * The worker record shared by the directory page, the filter hook and the card
 * (src/types/worker.ts). The declared type says `id: number`, but the hook's
 * tests pass `null`, so the identifier is optional here.
 */
module Workers {

  import opened Wrappers

  datatype Worker = Worker(
    id: Option<int>,
    name: string,
    service: string,
    pricePerDay: int,
    image: string)

  /** `workers.map(worker => worker.service)` */
  function ServicesOf(ws: seq<Worker>): (r: seq<string>)
    ensures |r| == |ws|
    ensures forall i :: 0 <= i < |ws| ==> r[i] == ws[i].service
  {
    seq(|ws|, i requires 0 <= i < |ws| => ws[i].service)
  }

  /** Some record of `ws` offers `service`. */
  predicate Offered(ws: seq<Worker>, service: string)
  {
    exists i :: 0 <= i < |ws| && ws[i].service == service
  }
}
