/** What a discovery client tells the detector: the API resource lists the
    server publishes, one per group/version, or the error of a failed listing. */
module Discovery {

  datatype Option<T> = None | Some(value: T)

  /** One served resource. The detector reads only its kind, so the other
      fields of a served resource (name, verbs, ...) are not modelled. */
  datatype APIResource = APIResource(kind: string)

  /** The resources served under one group/version ("apps/v1", "v1", ...). */
  datatype APIResourceList = APIResourceList(groupVersion: string, resources: seq<APIResource>)

  /** The answer of one ServerResources call. */
  datatype ServerResources =
    | Listed(lists: seq<APIResourceList>)
    | Failed(error: string)

  /** Some list of the given group/version contains a resource of the given kind. */
  ghost predicate Served(lists: seq<APIResourceList>, groupVersion: string, kind: string)
  {
    exists i, j :: 0 <= i < |lists| && lists[i].groupVersion == groupVersion &&
      0 <= j < |lists[i].resources| && lists[i].resources[j].kind == kind
  }

  /** The resource is present according to one answer; a failed listing counts as absent. */
  ghost predicate Present(answer: ServerResources, groupVersion: string, kind: string)
  {
    answer.Listed? && Served(answer.lists, groupVersion, kind)
  }
}
