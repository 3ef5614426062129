/**
 * The devtools `component-example` endpoint: given the `component` query
 * parameter, it answers with the source of the matching example file, or
 * with an error. Reading the file is a parameter: `None` stands for a read
 * that throws.
 */
module MetaExample {
  import opened Wrappers

  /** The JSON body sent back. */
  datatype Body = ErrorBody(error: string) | ExampleBody(component: string, source: string)

  /** Status code, whether `Content-Type: application/json` was set, and body. */
  datatype Response = Response(status: int, jsonContentType: bool, body: Body)

  const NameRequired := "Component name is required"
  const ReadFailed := "Failed to read component source"

  /** The example file looked up for a component, relative to the devtools directory. */
  function ExamplePath(name: string): string {
    "../runtime/examples/" + name + ".vue"
  }

  /**
   * The handler: a missing or empty name is a 400, a failed read a 500, and
   * otherwise a 200 with the name and the file's text. Only the success path
   * sets the JSON content type.
   */
  function ExampleResponse(component: Option<string>, readFile: string -> Option<string>): (r: Response)
    ensures r.status == 400 <==> component.None? || component.value == []
    ensures r.status == 400 ==> r.body == ErrorBody(NameRequired)
    ensures r.status == 500 <==> component.Some? && component.value != [] && readFile(ExamplePath(component.value)).None?
    ensures r.status == 500 ==> r.body == ErrorBody(ReadFailed)
    ensures r.status == 200 <==> component.Some? && component.value != [] && readFile(ExamplePath(component.value)).Some?
    ensures r.status == 200 ==>
              r.body == ExampleBody(component.value, readFile(ExamplePath(component.value)).value)
    ensures r.jsonContentType <==> r.status == 200
  {
    if component.None? || component.value == [] then
      Response(400, false, ErrorBody(NameRequired))
    else
      match readFile(ExamplePath(component.value))
      case None => Response(500, false, ErrorBody(ReadFailed))
      case Some(source) => Response(200, true, ExampleBody(component.value, source))
  }

  /** Every request gets one of the three answers. */
  lemma ExampleStatuses(component: Option<string>, readFile: string -> Option<string>)
    ensures ExampleResponse(component, readFile).status in {200, 400, 500}
  {
  }

  /** A request without a name is refused before any file is read: the reader plays no part. */
  lemma MissingNameReadsNothing(component: Option<string>, readA: string -> Option<string>, readB: string -> Option<string>)
    requires component.None? || component.value == []
    ensures ExampleResponse(component, readA) == ExampleResponse(component, readB)
  {
  }

  /** The source sent back is exactly what was read for that name. */
  lemma ExampleEchoesSource(name: string, readFile: string -> Option<string>, source: string)
    requires name != [] && readFile(ExamplePath(name)) == Some(source)
    ensures ExampleResponse(Some(name), readFile) == Response(200, true, ExampleBody(name, source))
  {
  }
}
