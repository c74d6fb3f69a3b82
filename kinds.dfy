/**
 * The kind of an outline entry (`TPType`): a project, a task or plain text.
 */
module Kinds {

  datatype Kind = Project(name: string) | Task(name: string) | Text(name: string)
  {
    /** The display form: `name:`, `- name` or the text itself. */
    function ToString(): (r: string)
      ensures Project? ==> r == name + ":"
      ensures Task? ==> r == "- " + name
      ensures Text? ==> r == name
    {
      match this
      case Project(n) => n + ":"
      case Task(n) => "- " + n
      case Text(n) => n
    }
  }
}
