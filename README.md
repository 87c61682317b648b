# ec2-ssh, modelled in Dafny

ec2-ssh resolves an EC2 instance by a tag value. `ec2-ssh [user@]value` opens an
ssh session to it. `ec2-host [value]` prints one tab-separated line per
matching instance. This project models the data handling inside `ec2_ssh.py`
once its calls into boto3 and the operating system become plain values:

- **Target parsing** (`main`). The positional value is split at its first `@`
  into a username and a tag value. With no `@`, the `--user` default applies.
- **Inventory normalisation** (`get_instances`):
  - It builds the DescribeInstances filter list.
  - It walks every reservation's instances and keeps only those whose state
    name passes `not in ('running')`. That test is a substring test on a
    string, not tuple membership.
  - It stores one record per instance id in a Python dictionary, modelled
    with the insertion order of Python 3.7 and later. Storing under an id
    that is already present replaces the record and keeps the key's
    position.
- **Selection and output** (`get_host_name`, `main`, `host`):
  - `get_host_name` takes the `public` field of the first entry.
  - `main` builds the ssh command list and hands it to `os.execlp`.
  - `host` renders one five-column line per entry.

Modules:

- `Wrappers` (wrappers.dfy): Option and Result.
- `PyDict` (pydict.dfy): the ordered dictionary, with Python's assignment
  semantics stated through `Get` and `Keys`.
- `Inventory` (inventory.dfy): the raw response and the normalised record.
  It has `GetInstances`, the nested loops as imperative Dafny, proved equal to
  the fold `Normalize`. It also has reference definitions: the kept ids, their
  first occurrences, and the last kept instance per id. The lemmas relate the
  fold to these definitions.
- `Ec2Ssh` (ec2_ssh.dfy): `main` and `host` as functions of their arguments
  and of `describe`. `describe` is a function from a filter list to a
  DescribeInstances response. Each run records the filter list it sent.

Modelling conventions:

- An attribute of a raw instance is `None` when the response lacks that key,
  so reading it raises `KeyError`. It is `Some("")` when the key is present
  but falsy. A Python `None` value behaves like `""` here.
- Raising an uncaught `KeyError` is an `Err` or `Raised` result.

Where the code and the usual description of the tool disagree, the model
follows the code:

- `get_host_name` takes the first entry, not the first entry that has a
  public address. If that entry has no `public` field, it raises `KeyError`.
  The code itself makes no random choice; which entry is first depends on
  the dictionary's iteration order (see "## Left out").
- The state test keeps any substring of "running", such as "" or "run".
  Among real EC2 states only "running" passes.
- Only present-but-falsy attributes are omitted silently. An absent
  `PublicIpAddress`, `PrivateIpAddress`, `InstanceType`, `AvailabilityZone`
  or `Tags` key raises `KeyError` for a running instance.
- `host` does not print missing fields as empty columns. A record without
  one of the five fields raises `KeyError`, after the earlier lines have
  been printed.

## Model

| member | source | states |
|---|---|---|
| PyDict.Set | ec2_ssh.py:108 | `d[key] = v`: afterwards `key` maps to `v` and every other key keeps its value. The key order is unchanged when `key` was present; otherwise `key` is appended. Distinct keys stay distinct. |
| Inventory.Filters | ec2_ssh.py:94-99 | At most one filter. There is exactly one when the value is present and non-empty; its name is `"tag:"` followed by the tag, and its values are `[value]`. |
| Inventory.Contains | ec2_ssh.py:106 | Python's `in` on strings holds exactly when the needle occurs as a contiguous run of the haystack. |
| Inventory.Kept | ec2_ssh.py:106 | An instance is kept exactly when its state name is a substring of "running". |
| Inventory.OnlyRunningIsKept | ec2_ssh.py:106-107 | Of the EC2 states, "running" passes the state test; "pending", "stopping", "stopped", "shutting-down" and "terminated" are dropped. |
| Inventory.SubstringsOfRunningAreKept | ec2_ssh.py:106-107 | The test also keeps "", "run" and "nin". Any kept state of length 7 or more is exactly "running". |
| Inventory.NameTag | ec2_ssh.py:117-120 | No result exactly when no tag has key "Name". Otherwise the result is the value of the last tag with key "Name"; tags with other keys are ignored. |
| Inventory.Project | ec2_ssh.py:108-120 | The record of one running instance exists exactly when all of `PublicIpAddress`, `PrivateIpAddress`, `InstanceType`, `AvailabilityZone` and `Tags` are present. Otherwise the `KeyError` names the first absent one in that reading order. |
| Inventory.ProjectFields | ec2_ssh.py:109-120 | In a stored record, each of public, private, type and az is present exactly when its attribute is non-empty, and then equals it. `name` is present exactly when some tag has key "Name", and it is `NameTag` of the tags: the value of the last "Name" tag. |
| Inventory.ReadRecord | ec2_ssh.py:108-120 | The loop body for a running instance yields the record `Project` defines, or the `KeyError` of the first absent attribute it reads. |
| Inventory.VisitReservation | ec2_ssh.py:105-120 | The inner loop over one reservation continues the fold `Collect` from the dictionary built so far, and stops at the first `KeyError`. |
| Inventory.Collect | ec2_ssh.py:103-120 | When the fold over the instances succeeds, its keys are distinct and there are no more entries than instances. |
| Inventory.Normalize | ec2_ssh.py:103-121 | When `get_instances` returns a dictionary, an id is one of its keys exactly when some running instance in the response has that id. |
| Inventory.GetInstances | ec2_ssh.py:103-121 | The nested loops over reservations and instances return `Normalize(resp)`. |
| Inventory.CollectKeys | ec2_ssh.py:103-108 | The keys of the result are the ids of the kept instances, each at the position of its first occurrence, and they are distinct. |
| Inventory.CollectGet | ec2_ssh.py:104-120 | An id maps to the record of the last kept instance with that id. An id with no kept instance is absent. |
| Inventory.CollectEntry | ec2_ssh.py:103-121 | Entry k holds the k-th distinct kept id and the record of the last kept instance with that id. |
| Inventory.CollectSucceeds | ec2_ssh.py:104-117 | Normalisation succeeds exactly when no kept instance lacks an attribute that is read. Skipped instances are never read. |
| Inventory.CollectFails | ec2_ssh.py:104-117 | A `KeyError` is the one raised by the first kept instance that lacks an attribute. |
| Ec2Ssh.SplitTarget | ec2_ssh.py:33-37 | With an `@`, username + "@" + value gives back the argument, and the username holds no `@`. Without an `@`, the result is the `--user` default and the unchanged argument. |
| Ec2Ssh.SplitTargetAtFirst | ec2_ssh.py:33-34 | The split is at the first `@`. Any later `@` stays in the value. |
| Ec2Ssh.GetHostName | ec2_ssh.py:58-61 | A host name is never empty. It is the public address of some running instance in the response. There is no host name (None) exactly when the dictionary is empty. |
| Ec2Ssh.GetHostNameIsFirstInstance | ec2_ssh.py:58-61 | With no kept instance the result is None. Otherwise it is the public address of the first kept instance, as stored by the last kept instance with its id. If that record has no public address, the result is `KeyError('public')`. Normalisation errors propagate. |
| Ec2Ssh.SshCommand | ec2_ssh.py:45-51 | For every username, host and unparsed list, `command` is `ssh -t -t`, then the target `username + "@" + host`, then the unparsed arguments unchanged and in order. When the username holds no `@`, splitting the target at its first `@` gives back the username and the host. |
| Ec2Ssh.Main | ec2_ssh.py:30-55 | The query filters on the value after the first `@`. A `KeyError` from `get_host_name` leaves `main` uncaught. With no host name, `main` writes "ec2-ssh: no hosts matched" and exits with status 1. With a host name, it execs. |
| Ec2Ssh.MainCommand | ec2_ssh.py:45-55 | The exec is `os.execlp(*command)`: the file is "ssh" and the new argument vector is the rest of `command`. So argv[0] is the first "-t", and ssh parses one "-t", the target `username@host`, and then the unparsed arguments. The connecting notice goes to stderr first. |
| Ec2Ssh.MainNoHosts | ec2_ssh.py:39-43 | With no running instance in the response, `main` writes "ec2-ssh: no hosts matched", exits with status 1 and execs nothing. |
| Ec2Ssh.MainSingleInstance | ec2_ssh.py:39-55 | With exactly one running instance in the response (other, non-running instances may be present), all five read attributes of which are present and whose public address P is non-empty, `main` execs "ssh" with the argument vector `-t -t username@P` plus the unparsed arguments, after writing the connecting notice. |
| Ec2Ssh.SplitJoin | ec2_ssh.py:82 | Splitting a tab-joined line on tabs gives back its columns, provided no column holds a tab. |
| Ec2Ssh.Columns | ec2_ssh.py:83-87 | The columns exist exactly when all five fields are set, and are then the values of type, az, public, private and name in that order. Otherwise the `KeyError` names the first missing field in that argument order. |
| Ec2Ssh.Line | ec2_ssh.py:82-88 | A record yields a line exactly when all five fields are set. For every record, the line is type, az, public, private and name joined by single tabs. When no field holds a tab, splitting the line on tabs gives those five fields back. |
| Ec2Ssh.PrintLines | ec2_ssh.py:81-88 | Line k is the line of entry k. Without an error there is one line per entry. With an error, the lines are those of the entries before the first entry that lacks a field, and the error is that entry's `KeyError`. |
| Ec2Ssh.PrintsEveryInstance | ec2_ssh.py:80-88 | If every running instance has all read attributes and all printed fields, the loop prints one line per distinct running id, in first-appearance order. Each line renders the last instance with that id. |
| Ec2Ssh.Host | ec2_ssh.py:78-88 | `host` filters with its tag and optional value. A `KeyError` from `get_instances` prints nothing. Otherwise line k is the line of entry k. Without an error there is one line per entry, and so one per distinct running id in the response. With an error, printing stopped at the first entry whose line fails, and the error is that entry's `KeyError`. |
| Ec2Ssh.HostListsEveryInstance | ec2_ssh.py:78-88 | Under the same condition, `host` raises nothing and prints one line per distinct running id in the response to its filters, in first-appearance order. Each line renders the last instance with that id. |

## Left out

- The boto3 client and the DescribeInstances call (ec2_ssh.py:92, 101) are a
  network service. The model takes the response as an input, or as a function
  of the filter list. Which instances EC2 returns for a `tag:` filter is EC2's
  behaviour and is not modelled. So nothing here says that the listed
  instances carry the matched tag value. Responses split over several pages
  are not modelled either.
- Argument parsing and the environment defaults (ec2_ssh.py:12-27, 64-75, 79)
  are not modelled: `EC2_HOST_TAG`, else "Name", and `EC2_SSH_USER`, else
  "ubuntu". The tag, user, value and unparsed arguments are parameters.
- `os.execlp`, `sys.stdout.flush`, `sys.exit` and the printing to stderr and
  stdout (ec2_ssh.py:42-43, 53-55, 82) are modelled as returned values. These
  are the file and argument vector handed to `os.execlp`, the exit status, the
  stderr lines and the printed lines. How ssh then behaves is not modelled.
- Main: `os.execlp(*command)` passes "ssh" as the file and the rest of
  `command` as the whole argument vector. That vector's argv[0] is the first
  "-t", which ssh takes as its own name, so ssh parses a single "-t". The
  model states this vector; it does not model ssh's option parsing.
- The random order promised by the help text (ec2_ssh.py:16, 66-67) is not
  modelled. The code calls no random function, and the model fixes the
  dictionary's iteration order as insertion order.
- PyDict, GetHostName, Host: the model's dictionary iterates in insertion
  order, which is the behaviour of Python 3.7 and later (and of CPython 3.6).
  The source also runs on Python 2 and older Python 3, where a dict
  iterates in hash order, and on 3.3-3.5 string hashing is randomised per
  process. There the entry `get_host_name` picks (ec2_ssh.py:60-61) and the
  order of `host`'s lines (ec2_ssh.py:81) can change between runs; the model
  does not capture this.
- `Placement.AvailabilityZone` is one attribute. An absent `Placement` and an
  absent `AvailabilityZone` are not told apart.
- `InstanceId`, `State.Name` and the tags' `Key` and `Value` are always
  present. A `KeyError` from reading them is not modelled.
- GetInstances: the record is built before it is stored under its id. Python
  stores `{}` first and then fills it in place. The result is the same,
  because a `KeyError` discards the whole dictionary.
- Attribute values are strings. Formatting of non-string values by
  `str.format` is not modelled.
- HostListsEveryInstance is stated only for responses whose running
  instances all have every printed field. PrintLines covers the general case.
