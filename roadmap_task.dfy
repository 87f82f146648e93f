/** The node record that the roadmap parser produces (`RoadmapTask` in lib/roadmap-parser.ts). */
module RoadmapTypes {
  import opened JsText

  datatype NodeKind = TaskKind | CategoryKind

  /**
    The `id` of a node: the source renders it as `task-<line>` or `category-<line>`;
    the model keeps the two parts instead of the rendered text.
  */
  datatype TaskId = TaskId(kind: NodeKind, line: nat)

  /**
    One node of the roadmap forest. Optional fields are `None` where the source leaves them
    `undefined`; `isCategory` is `false` where the source leaves it unset.
  */
  datatype RoadmapTask = RoadmapTask(
    id: TaskId,
    title: string,
    completed: bool,
    isCategory: bool,
    link: Option<string>,
    start: Option<string>,
    completion: Option<string>,
    version: Option<string>,
    description: Option<string>,
    children: seq<RoadmapTask>,
    level: nat)
}
