/** Error values and the failure-carrying datatypes shared by every part of the model.
    Each constructor of `Error` stands for one error the Go code returns; the model
    keeps the kind of failure and the path, agent or text it names, not the message. */
module Results {

  datatype Option<T> = None | Some(value: T)

  datatype Error =
    // filesystem errors (os.Stat, os.Lstat, os.Open, os.Mkdir, os.Symlink, os.OpenFile)
    | NotExist(path: seq<string>)
    | NotADirectory(path: seq<string>)
    | AlreadyExists(path: seq<string>)
    | IsADirectory(path: seq<string>)
    | NotRegular(path: seq<string>)
    // configuration and lookup errors of the commands
    | UnsupportedAgent(agent: string)
    | SkillNotFound(skill: string)
    | SkillNotRegistered(skill: string)
    // agent selection and integer scanning
    | NoAgentsSelected
    | InvalidSelection(part: string)
    | SelectionOutOfRange(index: int)
    | UnexpectedEof
    | ExpectedInteger
    | IntegerOutOfRange
    | NotPositive

  datatype Result<T> = Ok(value: T) | Err(error: Error)
}
