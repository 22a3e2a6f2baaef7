/**
  What running AutophiGen.py does to the outside world, as a sequence of
  events: lines printed, the BLAST query, the hit file written, HTTP requests
  to the EMBL-EBI REST services, sleeps, and the call that renders the tree.
 */
module Effects {

  datatype Option<T> = None | Some(value: T)

  /** The form fields both EBI submissions post, in `send_sequences` and `send_sequences_phylo`. */
  datatype Form = Form(email: string, sequence: string, title: string)

  datatype Event =
    | Print(line: string)
    | BlastQuery(program: string, database: string, sequence: string, evalue: real, hitlistSize: nat, email: string)
    | FileWritten(name: string, text: string)
    | Post(url: string, form: Form)
    | Get(url: string, accept: string)
    | Sleep(seconds: nat)
    | ViewTree(tree: string)

  const RestRoot := "https://www.ebi.ac.uk/Tools/services/rest/"

  /** The two EBI tools the script calls, as they appear in their URLs. */
  const Muscle := "muscle"
  const SimplePhylogeny := "simple_phylogeny"

  function RunUrl(tool: string): string
  {
    RestRoot + tool + "/run"
  }

  function StatusUrl(tool: string, jobId: string): string
  {
    RestRoot + tool + "/status/" + jobId
  }

  function ResultUrl(tool: string, jobId: string, kind: string): string
  {
    RestRoot + tool + "/result/" + jobId + "/" + kind
  }

  /** The number of HTTP GET requests among `events`. */
  function Gets(events: seq<Event>): nat
  {
    if events == [] then 0 else (if events[0].Get? then 1 else 0) + Gets(events[1..])
  }

  /** The seconds spent sleeping over `events`. */
  function SecondsSlept(events: seq<Event>): nat
  {
    if events == [] then 0 else (if events[0].Sleep? then events[0].seconds else 0) + SecondsSlept(events[1..])
  }

  lemma {:induction false} CountsAppend(a: seq<Event>, b: seq<Event>)
    ensures Gets(a + b) == Gets(a) + Gets(b)
    ensures SecondsSlept(a + b) == SecondsSlept(a) + SecondsSlept(b)
    decreases |a|
  {
    if a == [] {
      assert a + b == b;
    } else {
      assert (a + b)[0] == a[0];
      assert (a + b)[1..] == a[1..] + b;
      CountsAppend(a[1..], b);
    }
  }
}
