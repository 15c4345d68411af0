/** The project catalog and the technology-to-icon table the projects pages render from. */
module Catalog {
  import opened Wrappers

  /** The three lifecycle states a project can be in. */
  datatype Status = Completed | InProgress | Planning {

    /** The string the catalog stores for the status. */
    function Name(): (r: string)
      ensures r == "completed" || r == "in-progress" || r == "planning"
    {
      match this
      case Completed => "completed"
      case InProgress => "in-progress"
      case Planning => "planning"
    }
  }

  datatype Category = Frontend | Fullstack | Backend | Mobile

  /** One catalog entry; only `id` takes part in selection, the rest is payload for display. */
  datatype Project = Project(
    id: string,
    title: string,
    description: string,
    longDescription: string,
    image: string,
    technologies: seq<string>,
    githubUrl: string,
    liveUrl: Option<string>,
    status: Status,
    category: Category,
    featured: bool)

  /** The icon components, treated as an opaque enumeration. */
  datatype Icon =
    | FaReact | FaJs | FaHtml5 | FaCss3Alt | FaNodeJs | FaPython | FaDatabase
    | SiTypescript | SiTailwindcss | SiChakraui | SiVite | SiNextdotjs | SiMongodb | SiExpress | SiFirebase

  const TechIcons: map<string, Icon> := map[
    "React" := FaReact,
    "TypeScript" := SiTypescript,
    "JavaScript" := FaJs,
    "HTML5" := FaHtml5,
    "CSS3" := FaCss3Alt,
    "Tailwind CSS" := SiTailwindcss,
    "Chakra UI" := SiChakraui,
    "Node.js" := FaNodeJs,
    "Express" := SiExpress,
    "MongoDB" := SiMongodb,
    "PostgreSQL" := FaDatabase,
    "Firebase" := SiFirebase,
    "Next.js" := SiNextdotjs,
    "Vite" := SiVite,
    "Python" := FaPython,
    "D3.js" := FaJs,
    "Prisma" := FaDatabase,
    "Socket.io" := FaNodeJs,
    "AWS" := FaDatabase,
    "Stripe" := FaJs
  ]

  const ProjectsData: seq<Project> := [
    Project(
      "1",
      "E-Commerce Dashboard",
      "A comprehensive admin dashboard for managing e-commerce operations with real-time analytics.",
      "Built a full-featured e-commerce admin dashboard that provides comprehensive analytics, inventory management, and customer insights. The application features real-time data updates, responsive design, and an intuitive user interface that makes complex data easy to understand and act upon.",
      "/projects/ecommerce-dashboard.jpg",
      ["React", "TypeScript", "Chakra UI", "Node.js", "MongoDB"],
      "https://github.com/yourusername/ecommerce-dashboard",
      Some("https://ecommerce-dashboard-demo.com"),
      Completed,
      Fullstack,
      true),
    Project(
      "2",
      "Task Management App",
      "A collaborative task management application with real-time updates and team coordination features.",
      "Developed a modern task management application that enables teams to collaborate effectively. Features include drag-and-drop task organization, real-time notifications, file attachments, and comprehensive project tracking. Built with accessibility in mind, following WCAG guidelines.",
      "/projects/task-manager.jpg",
      ["React", "TypeScript", "Tailwind CSS", "Express", "Firebase"],
      "https://github.com/yourusername/task-manager",
      Some("https://task-manager-demo.com"),
      Completed,
      Fullstack,
      true),
    Project(
      "3",
      "Weather Analytics Platform",
      "A data visualization platform for weather patterns and climate analysis.",
      "Created an interactive weather analytics platform that visualizes complex meteorological data through engaging charts and maps. The platform integrates multiple weather APIs and provides insights for both casual users and meteorology professionals.",
      "/projects/weather-platform.jpg",
      ["React", "D3.js", "TypeScript", "Python", "PostgreSQL"],
      "https://github.com/yourusername/weather-platform",
      None,
      InProgress,
      Frontend,
      false),
    Project(
      "4",
      "Personal Finance Tracker",
      "A secure personal finance application with budget tracking and expense categorization.",
      "Built a comprehensive personal finance tracking application that helps users manage their budgets, track expenses, and achieve financial goals. Features secure authentication, data encryption, and detailed financial reporting with interactive charts.",
      "/projects/finance-tracker.jpg",
      ["Next.js", "TypeScript", "Prisma", "PostgreSQL", "Stripe"],
      "https://github.com/yourusername/finance-tracker",
      Some("https://finance-tracker-demo.com"),
      Completed,
      Fullstack,
      true),
    Project(
      "5",
      "Learning Management System",
      "An educational platform for online course delivery and student progress tracking.",
      "Developed a comprehensive learning management system that enables educators to create and deliver online courses. Features include video streaming, interactive quizzes, progress tracking, and student-teacher communication tools.",
      "/projects/lms-platform.jpg",
      ["React", "Node.js", "MongoDB", "Socket.io", "AWS"],
      "https://github.com/yourusername/lms-platform",
      None,
      Planning,
      Fullstack,
      false)
  ]

  /** No two entries of a catalog share an id. */
  predicate IdsDistinct(catalog: seq<Project>) {
    forall i, j :: 0 <= i < j < |catalog| ==> catalog[i].id != catalog[j].id
  }

  /** Every technology a catalog entry names has an entry in the icon table. */
  predicate IconsComplete(catalog: seq<Project>) {
    forall i, t :: 0 <= i < |catalog| && t in catalog[i].technologies ==> t in TechIcons
  }

  /** The catalog is non-empty, so the first-entry fallbacks always have an entry to return. */
  lemma CatalogNonEmpty()
    ensures |ProjectsData| == 5
  {
  }

  lemma CatalogIdsDistinct()
    ensures IdsDistinct(ProjectsData)
  {
    var ids := ["1", "2", "3", "4", "5"];
    assert forall i :: 0 <= i < |ProjectsData| ==> ProjectsData[i].id == ids[i];
    assert forall i, j :: 0 <= i < j < |ids| ==> ids[i] != ids[j];
  }

  /** The lookup that uses no fallback never misses on catalog data. */
  lemma CatalogIconsComplete()
    ensures IconsComplete(ProjectsData)
  {
  }

  /** Only the third and fifth projects have no live demo link. */
  lemma CatalogLiveUrls()
    ensures forall i :: 0 <= i < |ProjectsData| ==>
      (ProjectsData[i].liveUrl.None? <==> ProjectsData[i].id == "3" || ProjectsData[i].id == "5")
  {
  }

  /** Every stored status is one of the three names the status table knows. This holds of every
      `Status` value by `Status.Name`'s contract, as the union type guarantees it for the source. */
  lemma CatalogStatusNames()
    ensures forall i :: 0 <= i < |ProjectsData| ==>
      ProjectsData[i].status.Name() in ["completed", "in-progress", "planning"]
  {
  }
}
